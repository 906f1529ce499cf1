/**
 * Content search gated by the bigram index (internal/storage/discovery.go,
 * internal/storage/index_store.go, internal/storage/index_sweep.go,
 * internal/storage/index/index.go). Here a `char` is one code point, and lower-casing
 * is a per-character parameter.
 */
module Search {
  import opened Wrappers
  import opened ByteOrder
  import opened PartialEdit

  type Lowering = char -> char

  function Lower(s: string, lower: Lowering): (r: string)
    ensures |r| == |s| && forall i :: 0 <= i < |s| ==> r[i] == lower(s[i])
  {
    seq(|s|, i requires 0 <= i < |s| => lower(s[i]))
  }

  /** `q` occurs in `s`. */
  predicate Contains(s: string, q: string) {
    exists i: nat :: i <= |s| && OccursAt(s, q, i)
  }

  // --------------------------------------------------------------------- bigrams

  predicate Ascending(a: seq<string>) {
    forall i, j :: 0 <= i < j < |a| ==> Less(a[i], a[j])
  }

  /** Where `x` is, or would be, in a sorted list. */
  function LowerBound(a: seq<string>, x: string): (i: nat)
    ensures i <= |a|
    ensures forall k :: 0 <= k < i ==> Less(a[k], x)
    ensures i < |a| ==> !Less(a[i], x)
  {
    if a == [] || !Less(a[0], x) then 0 else 1 + LowerBound(a[1..], x)
  }

  function InsertSorted(a: seq<string>, x: string): seq<string> {
    var i := LowerBound(a, x);
    if i < |a| && a[i] == x then a else a[..i] + [x] + a[i..]
  }

  /** The distinct two-character windows of the lower-cased text, sorted. */
  function Windows(low: string): seq<string> {
    if |low| < 2 then [] else InsertSorted(Windows(low[..|low| - 1]), low[|low| - 2..])
  }

  function Bigrams(s: string, lower: Lowering): seq<string> {
    Windows(Lower(s, lower))
  }

  lemma LowerBoundFinds(a: seq<string>, x: string)
    requires Ascending(a)
    ensures x in a <==> LowerBound(a, x) < |a| && a[LowerBound(a, x)] == x
  {
    LessIrreflexive(x);
  }

  lemma AfterLowerBound(a: seq<string>, x: string, k: nat)
    requires Ascending(a) && LowerBound(a, x) <= k < |a| && x !in a
    ensures Less(x, a[k])
  {
    var i := LowerBound(a, x);
    LessTotal(x, a[i]);
    if i < k {
      LessTransitive(x, a[i], a[k]);
    }
  }

  lemma InsertKeepsSorted(a: seq<string>, x: string)
    requires Ascending(a)
    ensures Ascending(InsertSorted(a, x))
    ensures forall y :: y in InsertSorted(a, x) <==> y in a || y == x
  {
    var i := LowerBound(a, x);
    LowerBoundFinds(a, x);
    assert a == a[..i] + a[i..];
    if x !in a {
      forall k | i <= k < |a| ensures Less(x, a[k]) {
        AfterLowerBound(a, x, k);
      }
      InsertAscending(a, i, x);
    }
  }

  lemma InsertAscending(a: seq<string>, i: nat, x: string)
    requires i <= |a| && Ascending(a)
    requires (forall k :: 0 <= k < i ==> Less(a[k], x)) && (forall k :: i <= k < |a| ==> Less(x, a[k]))
    ensures Ascending(a[..i] + [x] + a[i..])
  {
    hide Less;
    var r := a[..i] + [x] + a[i..];
    forall j, k | 0 <= j < k < |r| ensures Less(r[j], r[k]) {
      assert r[j] == if j < i then a[j] else if j == i then x else a[j - 1];
      assert r[k] == if k < i then a[k] else if k == i then x else a[k - 1];
    }
  }

  lemma WindowOfPush(front: string, c: char, b: string)
    requires |b| == 2
    ensures Contains(front + [c], b) <==> Contains(front, b) || (front != [] && b == [front[|front| - 1], c])
  {
    var low := front + [c];
    if Contains(low, b) {
      var i: nat :| i <= |low| && OccursAt(low, b, i);
      if i < |front| - 1 {
        assert front[i..i + 2] == low[i..i + 2];
        assert OccursAt(front, b, i);
      } else {
        assert b[0] == low[i] && b[1] == low[i + 1];
      }
    }
    if Contains(front, b) {
      var i: nat :| i <= |front| && OccursAt(front, b, i);
      assert front[i..i + 2] == low[i..i + 2];
      assert OccursAt(low, b, i);
    }
    if front != [] && b == [front[|front| - 1], c] {
      assert OccursAt(low, b, |front| - 1);
    }
  }

  lemma {:induction false} WindowsSorted(low: string)
    ensures Ascending(Windows(low))
    decreases |low|
  {
    if |low| >= 2 {
      hide Ascending, InsertSorted;
      WindowsSorted(low[..|low| - 1]);
      InsertKeepsSorted(Windows(low[..|low| - 1]), low[|low| - 2..]);
    } else {
      assert Windows(low) == [];
    }
  }

  lemma {:induction false} WindowIsListed(low: string, b: string)
    ensures b in Windows(low) <==> |b| == 2 && Contains(low, b)
    decreases |low|
  {
    if |low| >= 2 {
      var front, last := low[..|low| - 1], low[|low| - 2..];
      WindowIsListed(front, b);
      WindowsSorted(front);
      assert Windows(low) == InsertSorted(Windows(front), last);
      assert low == front + [low[|low| - 1]] && last == [front[|front| - 1], low[|low| - 1]];
      hide Contains, InsertSorted, Ascending, Windows;
      InsertKeepsSorted(Windows(front), last);
      if |b| == 2 {
        WindowOfPush(front, low[|low| - 1], b);
      }
    }
  }

  /** Sorted, and exactly the windows. */
  lemma {:induction false} WindowsAre(low: string)
    ensures Ascending(Windows(low))
    ensures forall b :: b in Windows(low) <==> |b| == 2 && Contains(low, b)
  {
    WindowsSorted(low);
    forall b ensures b in Windows(low) <==> |b| == 2 && Contains(low, b) {
      WindowIsListed(low, b);
    }
  }

  // ------------------------------------------------------------------- the record

  datatype Record = Record(etag: string, bigrams: seq<string>)

  /** Each wanted bigram is looked up in the record's sorted list. */
  method ContainsAllBigrams(r: Record, wanted: seq<string>) returns (all: bool)
    requires Ascending(r.bigrams)
    ensures all <==> forall b :: b in wanted ==> b in r.bigrams
  {
    for k := 0 to |wanted|
      invariant forall j :: 0 <= j < k ==> wanted[j] in r.bigrams
    {
      LowerBoundFinds(r.bigrams, wanted[k]);
      var i := LowerBound(r.bigrams, wanted[k]);
      if i >= |r.bigrams| || r.bigrams[i] != wanted[k] {
        assert wanted[k] in wanted;
        return false;
      }
    }
    all := true;
  }

  predicate Covers(r: Record, content: string, lower: Lowering) {
    Ascending(r.bigrams) && forall b :: b in Bigrams(content, lower) ==> b in r.bigrams
  }

  /** The gate skips a file exactly when its record lacks one of the query's bigrams. */
  predicate Skips(r: Record, q: string, lower: Lowering) {
    exists b :: b in Bigrams(q, lower) && b !in r.bigrams
  }

  /** A file whose text contains the query holds every bigram of the query. */
  lemma MatchHoldsBigrams(content: string, q: string, lower: Lowering)
    requires Contains(Lower(content, lower), Lower(q, lower))
    ensures forall b :: b in Bigrams(q, lower) ==> b in Bigrams(content, lower)
  {
    var s, low := Lower(content, lower), Lower(q, lower);
    WindowsAre(s);
    WindowsAre(low);
    forall b | |b| == 2 && Contains(low, b) ensures Contains(s, b) {
      ContainsTransitive(s, low, b);
    }
  }

  lemma ContainsTransitive(s: string, q: string, b: string)
    requires Contains(s, q) && Contains(q, b)
    ensures Contains(s, b)
  {
    var i: nat :| i <= |s| && OccursAt(s, q, i);
    var j: nat :| j <= |q| && OccursAt(q, b, j);
    forall k | 0 <= k < |b| ensures s[i + j + k] == b[k] {
      assert s[i..i + |q|][j + k] == q[j + k] && q[j..j + |b|][k] == b[k];
    }
    assert OccursAt(s, b, i + j);
  }

  predicate Idempotent(lower: Lowering) {
    forall c: char :: lower(lower(c)) == lower(c)
  }

  /** The gate never hides a match, whatever the query, exactly when the record covers the content. */
  lemma GateIsSafeIffCovered(r: Record, content: string, lower: Lowering)
    requires Ascending(r.bigrams) && Idempotent(lower)
    ensures Covers(r, content, lower) <==>
            forall q :: Contains(Lower(content, lower), Lower(q, lower)) ==> !Skips(r, q, lower)
  {
    if Covers(r, content, lower) {
      forall q | Contains(Lower(content, lower), Lower(q, lower)) ensures !Skips(r, q, lower) {
        MatchHoldsBigrams(content, q, lower);
      }
    } else {
      var b :| b in Bigrams(content, lower) && b !in r.bigrams;
      BigramIsItsOwnQuery(content, b, lower);
      assert Skips(r, b, lower);
    }
  }

  lemma BigramIsItsOwnQuery(content: string, b: string, lower: Lowering)
    requires b in Bigrams(content, lower) && Idempotent(lower)
    ensures Contains(Lower(content, lower), Lower(b, lower)) && b in Bigrams(b, lower)
  {
    var s := Lower(content, lower);
    WindowsAre(s);
    var i: nat :| i <= |s| && OccursAt(s, b, i);
    assert b[0] == s[i] && b[1] == s[i + 1];
    assert Lower(b, lower) == b;
    WindowsAre(b);
    assert b[0..2] == b;
    assert OccursAt(b, b, 0);
  }

  // ------------------------------------------------------------------- the search

  datatype Match = Match(path: string, snippet: string, offset: nat)
  datatype Outcome = Found(matches: seq<Match>) | QueryRequired | InvalidSearchIn

  /** Context around a content match. */
  type Snippets = (string, string) -> (string, nat)

  /** The text holds the query, letter case aside. */
  ghost predicate Holds(text: string, query: string, lower: Lowering) {
    var s, q := Lower(text, lower), Lower(query, lower);
    exists i: nat :: i <= |s| && q <= s[i..]
  }

  predicate ContentMatches(content: Option<string>, query: string, lower: Lowering) {
    content.Some? && Contains(Lower(content.value, lower), Lower(query, lower))
  }

  /** A search by content or by both looks into the file; one by name or by both at its name. */
  ghost predicate ContentHit(content: Option<string>, query: string, where: string, lower: Lowering) {
    where != "filename" && content.Some? && Holds(content.value, query, lower)
  }

  ghost predicate NameHit(path: string, query: string, where: string, lower: Lowering) {
    where != "content" && Holds(path, query, lower)
  }

  /** A file's entry: its snippet when the content matched, else bare. */
  ghost predicate EntryFor(m: Match, path: string, content: Option<string>, query: string, where: string,
                           lower: Lowering, snippets: Snippets) {
    && m.path == path
    && (m.snippet, m.offset) == if ContentHit(content, query, where, lower)
                                then snippets(content.value, Lower(query, lower)) else ("", 0)
  }

  lemma ContainsIsHolds(text: string, query: string, lower: Lowering)
    ensures Contains(Lower(text, lower), Lower(query, lower)) <==> Holds(text, query, lower)
  {
    var s, q := Lower(text, lower), Lower(query, lower);
    if i: nat :| i <= |s| && OccursAt(s, q, i) {
      assert s[i..][..|q|] == s[i..i + |q|];
    }
    if i: nat :| i <= |s| && q <= s[i..] {
      assert s[i..i + |q|] == s[i..][..|q|] == q;
      assert OccursAt(s, q, i);
    }
  }

  /** One project's working tree with its derivative index; a store that is missing or corrupt is `None`. */
  class Project {
    const lower: Lowering
    const etagOf: string -> string
    var files: map<string, Option<string>>
    var records: Option<map<string, Record>>
    var marker: string
    var head: string
    var repoOpens: bool

    ghost predicate Valid()
      reads this
    {
      records.Some? ==> forall p :: p in records.value ==> Ascending(records.value[p].bigrams)
    }

    /** No record is behind its file's current content. */
    ghost predicate Covered()
      reads this
    {
      records.Some? ==> forall p :: p in records.value && p in files && files[p].Some? ==>
                          Covers(records.value[p], files[p].value, lower)
    }

    function RecordOf(content: string): (r: Record)
      reads this
      ensures r.etag == etagOf(content)
    {
      Record(etagOf(content), Bigrams(content, lower))
    }

    predicate IndexHealthy()
      reads this
    {
      records.Some? && repoOpens && marker == head
    }

    constructor (lower: Lowering, etagOf: string -> string)
      ensures Valid() && Covered() && files == map[] && records == None && this.lower == lower && this.etagOf == etagOf
    {
      this.lower, this.etagOf := lower, etagOf;
      files, records, marker, head, repoOpens := map[], None, "", "", true;
    }

    /** A put opens or creates the store; a failed one leaves the old record. */
    method IndexPut(rel: string, content: string, fails: bool)
      requires Valid()
      modifies this`records, this`marker
      ensures Valid()
      ensures fails ==> records == old(records) && marker == old(marker)
      ensures !fails ==>
                records == Some((if old(records).Some? then old(records).value else map[])[rel := RecordOf(content)])
    {
      if fails {
        return;
      }
      if records.None? {
        records, marker := Some(map[]), "";
      }
      WindowsAre(Lower(content, lower));
      records := Some(records.value[rel := RecordOf(content)]);
    }

    method IndexDelete(rel: string, fails: bool)
      requires Valid()
      modifies this`records, this`marker
      ensures Valid()
      ensures fails ==> records == old(records)
      ensures !fails ==> records == Some((if old(records).Some? then old(records).value else map[]) - {rel})
    {
      if fails {
        return;
      }
      if records.None? {
        records, marker := Some(map[]), "";
      }
      records := Some(records.value - {rel});
    }

    /** A write keeps the premise, unless its put fails over a record that lacks a bigram of the new content. */
    method WriteFile(rel: string, content: string, putFails: bool)
      requires Valid() && Covered()
      modifies this`files, this`records, this`marker
      ensures Valid() && files == old(files)[rel := Some(content)]
      ensures Covered() <==> !(putFails && old(records).Some? && rel in old(records).value
                               && !Covers(old(records).value[rel], content, lower))
    {
      hide Covers, Ascending;
      files := files[rel := Some(content)];
      IndexPut(rel, content, putFails);
      OwnBigramsCover(etagOf(content), content, lower);
    }

    /** A delete keeps the premise whether or not the record goes. */
    method DeleteFile(rel: string, fails: bool)
      requires Valid() && Covered()
      modifies this`files, this`records, this`marker
      ensures Valid() && Covered() && files == old(files) - {rel}
    {
      hide Covers, Ascending;
      files := files - {rel};
      IndexDelete(rel, fails);
    }

    /** The repair sweep: a marker behind HEAD, or no store, means a wholesale rebuild from the files. */
    method Reconcile(order: seq<string>)
      requires Valid() && (forall p :: p in order ==> p in files)
      modifies this`records, this`marker
      ensures Valid() && (old(Covered()) ==> Covered())
      ensures repoOpens && old(records.None? || marker != head) ==> Covered() && marker == head
      ensures !repoOpens || old(records.Some? && marker == head) ==> records == old(records) && marker == old(marker)
      ensures repoOpens && old(records.None? || marker != head) ==>
                records.Some? && records.value.Keys == (set p | p in order && files[p].Some?)
                && forall p :: p in records.value ==> records.value[p] == RecordOf(files[p].value)
    {
      hide Covers, Ascending, Bigrams;
      if !repoOpens || IndexHealthy() {
        return;
      }
      var rebuilt: map<string, Record> := map[];
      for i := 0 to |order|
        invariant rebuilt.Keys == set p | p in order[..i] && files[p].Some?
        invariant forall p :: p in rebuilt ==> rebuilt[p] == RecordOf(files[p].value)
        invariant forall p :: p in rebuilt ==> Covers(rebuilt[p], files[p].value, lower) && Ascending(rebuilt[p].bigrams)
      {
        var p := order[i];
        assert order[..i + 1] == order[..i] + [p];
        if files[p].Some? {
          OwnBigramsCover(etagOf(files[p].value), files[p].value, lower);
          rebuilt := rebuilt[p := RecordOf(files[p].value)];
        }
      }
      assert order[..|order|] == order;
      records, marker := Some(rebuilt), head;
    }

    /**
     * The gated walk. `at` says which walk positions the matches are from. Every match is
     * genuine and no name match is missed; as long as the records cover their files, or the
     * index is not used, the matches are exactly the files that hit, each with its entry.
     */
    method SearchFiles(query: string, searchIn: string, order: seq<string>, snippets: Snippets)
      returns (r: Outcome, ghost at: seq<nat>)
      requires Valid() && (forall p :: p in order ==> p in files)
      ensures query == "" <==> r.QueryRequired?
      ensures query != "" ==> (r.InvalidSearchIn? <==> searchIn !in {"", "filename", "content", "both"})
      ensures r.Found? ==>
                && |at| == |r.matches| && (forall k :: 0 <= k < |at| ==> at[k] < |order| && r.matches[k].path == order[at[k]])
                && (forall k, m :: 0 <= k < m < |at| ==> at[k] < at[m])
      ensures r.Found? ==>
                var where := if searchIn == "" then "both" else searchIn;
                forall i :: 0 <= i < |order| ==>
                  && (NameHit(order[i], query, where, lower) ==> i in at)
                  && (i in at ==> NameHit(order[i], query, where, lower) || ContentHit(files[order[i]], query, where, lower))
      ensures r.Found? && (Covered() || records.None? || !repoOpens || marker != head) ==>
                var where := if searchIn == "" then "both" else searchIn;
                && (forall i :: 0 <= i < |order| ==>
                      (i in at <==> NameHit(order[i], query, where, lower) || ContentHit(files[order[i]], query, where, lower)))
                && (forall k :: 0 <= k < |at| ==>
                      EntryFor(r.matches[k], order[at[k]], files[order[at[k]]], query, where, lower, snippets))
    {
      at := [];
      if query == "" {
        return QueryRequired, at;
      }
      var where := if searchIn == "" then "both" else searchIn;
      if where != "filename" && where != "content" && where != "both" {
        return InvalidSearchIn, at;
      }
      hide Contains, Ascending, Bigrams, Covers, Holds, Lower, NameHit, ContentHit, EntryFor, Covered;
      var matches;
      matches, at := Walk(query, where, order, snippets);
      r := Found(matches);
      assert forall i :: 0 <= i < |order| ==> Kept(i in at, order[i], files[order[i]], query, where);
    }

    method Walk(query: string, where: string, order: seq<string>, snippets: Snippets)
      returns (matches: seq<Match>, ghost at: seq<nat>)
      requires Valid() && (forall p :: p in order ==> p in files) && where in {"filename", "content", "both"}
      ensures |at| == |matches| && (forall k :: 0 <= k < |at| ==> at[k] < |order| && matches[k].path == order[at[k]])
      ensures forall k, m :: 0 <= k < m < |at| ==> at[k] < at[m]
      ensures forall i :: 0 <= i < |order| ==> Kept(i in at, order[i], files[order[i]], query, where)
      ensures Covered() || !IndexHealthy() ==>
                forall k :: 0 <= k < |at| ==>
                  EntryFor(matches[k], order[at[k]], files[order[at[k]]], query, where, lower, snippets)
    {
      hide Kept, EntryFor, Valid, Covered;
      var wanted := if where == "filename" then [] else Bigrams(query, lower);
      var gated := wanted != [] && IndexHealthy();
      hide Bigrams, IndexHealthy;
      matches, at := [], [];
      for i := 0 to |order|
        invariant |at| == |matches| && (forall k :: 0 <= k < |at| ==> at[k] < i && matches[k].path == order[at[k]])
        invariant forall k, m :: 0 <= k < m < |at| ==> at[k] < at[m]
        invariant forall j :: 0 <= j < i ==> Kept(j in at, order[j], files[order[j]], query, where)
        invariant Covered() || !IndexHealthy() ==>
                    forall k :: 0 <= k < |at| ==>
                      EntryFor(matches[k], order[at[k]], files[order[at[k]]], query, where, lower, snippets)
      {
        assert order[i] in order;
        var found := MatchFile(order[i], query, where, gated, wanted, snippets);
        ghost var at0 := at;
        if found.Some? {
          matches, at := matches + [found.value], at + [i];
        }
        assert forall j :: 0 <= j < i ==> (j in at <==> j in at0);
        assert i in at <==> found.Some?;
      }
    }

    /** One file of the walk: its name, and its content unless the index knows better. */
    method MatchFile(p: string, query: string, where: string, gated: bool, wanted: seq<string>, snippets: Snippets)
      returns (found: Option<Match>)
      requires Valid() && p in files && where in {"filename", "content", "both"}
      requires wanted == if where == "filename" then [] else Bigrams(query, lower)
      requires gated == (wanted != [] && IndexHealthy())
      ensures Kept(found.Some?, p, files[p], query, where)
      ensures found.Some? ==> found.value.path == p
      ensures found.Some? && (Covered() || !IndexHealthy()) ==>
                EntryFor(found.value, p, files[p], query, where, lower, snippets)
    {
      hide Contains, Ascending, Bigrams, Covers, Holds, Lower;
      var q := Lower(query, lower);
      var nameMatch := Contains(Lower(p, lower), q);
      ContainsIsHolds(p, query, lower);
      if files[p].Some? { ContainsIsHolds(files[p].value, query, lower); }
      var contentMatch, snippet, offset := false, "", 0;
      if where == "content" || where == "both" {
        var read := true;
        if gated && p in records.value {
          read := ContainsAllBigrams(records.value[p], wanted);
        }
        if read {
          if ContentMatches(files[p], query, lower) {
            contentMatch := true;
            var context := snippets(files[p].value, q);
            snippet, offset := context.0, context.1;
          }
        } else if Covered() && ContentMatches(files[p], query, lower) {
          CoveredIsRead(records.value[p], files[p].value, query, lower);
        }
      }
      if where == "filename" {
        found := if nameMatch then Some(Match(p, "", 0)) else None;
      } else if where == "content" {
        found := if contentMatch then Some(Match(p, snippet, offset)) else None;
      } else {
        found := if nameMatch || contentMatch then Some(Match(p, snippet, offset)) else None;
      }
    }

    /** Whether the walk kept a file. */
    ghost predicate Kept(kept: bool, path: string, content: Option<string>, query: string, where: string)
      reads this
    {
      && (NameHit(path, query, where, lower) ==> kept)
      && (kept ==> NameHit(path, query, where, lower) || ContentHit(content, query, where, lower))
      && (Covered() || !IndexHealthy() ==>
            (kept <==> NameHit(path, query, where, lower) || ContentHit(content, query, where, lower)))
    }
  }

  lemma OwnBigramsCover(etag: string, content: string, lower: Lowering)
    ensures Covers(Record(etag, Bigrams(content, lower)), content, lower) && Ascending(Bigrams(content, lower))
  {
    WindowsAre(Lower(content, lower));
  }

  lemma CoveredIsRead(r: Record, content: string, q: string, lower: Lowering)
    requires Covers(r, content, lower) && Contains(Lower(content, lower), Lower(q, lower))
    ensures forall b :: b in Bigrams(q, lower) ==> b in r.bigrams
  {
    MatchHoldsBigrams(content, q, lower);
  }
}
