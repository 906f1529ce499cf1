/**
 * The tree fold of `RepairTrackedChanges` (internal/storage/recovery.go): the
 * tracked changes reported by a status map are folded into HEAD's tree in
 * whatever order the map is iterated.
 */
module Recovery {
  import opened Wrappers
  import opened GitTree

  /** The worktree column of one status entry; `Modified` carries the bytes read from disk. */
  datatype Status = Modified(content: Blob) | Deleted | Untracked

  ghost predicate Tracked(st: map<Path, Status>, p: Path) {
    p in st && !st[p].Untracked?
  }

  /** Tracked paths come from one index, which never holds a file both at and below a path. */
  ghost predicate Apart(st: map<Path, Status>) {
    && (forall p :: p in st ==> ValidPath(p))
    && forall p, q :: Tracked(st, p) && Tracked(st, q) && p != q ==> !Related(p, q)
  }

  ghost predicate Superseded(st: map<Path, Status>, q: Path) {
    exists p :: Tracked(st, p) && Related(p, q)
  }

  /** HEAD's files with the tracked paths replaced or removed. */
  ghost function Adopted(m: map<Path, Blob>, st: map<Path, Status>): map<Path, Blob> {
    map q | q in m.Keys + st.Keys && ((q in st && st[q].Modified?) || (q in m && !Superseded(st, q)))
      :: if q in st && st[q].Modified? then st[q].content else m[q]
  }

  function AdoptOne(t: Tree, p: Path, s: Status): Tree
    requires |p| > 0
  {
    match s
    case Modified(c) => ApplyToTree(t, p, Some(c))
    case Deleted => ApplyToTree(t, p, None)
    case Untracked => t
  }

  ghost function Effect(m: map<Path, Blob>, p: Path, s: Status): map<Path, Blob> {
    match s
    case Modified(c) => Update(m, p, Some(c))
    case Deleted => Update(m, p, None)
    case Untracked => m
  }

  lemma SupersededByOneMore(seen: map<Path, Status>, p: Path, s: Status, q: Path)
    requires p !in seen
    ensures Superseded(seen[p := s], q) <==> Superseded(seen, q) || (!s.Untracked? && Related(p, q))
  {
    var all := seen[p := s];
    if Superseded(all, q) {
      var r :| Tracked(all, r) && Related(r, q);
      assert r != p ==> Tracked(seen, r);
    }
    if Superseded(seen, q) {
      var r :| Tracked(seen, r) && Related(r, q);
      assert Tracked(all, r);
    }
    if !s.Untracked? && Related(p, q) {
      assert Tracked(all, p);
    }
  }

  /** One more status entry acts on the files adopted so far like one tree update. */
  lemma AdoptedOneMore(m: map<Path, Blob>, seen: map<Path, Status>, p: Path, s: Status)
    requires p !in seen && Apart(seen[p := s])
    ensures Adopted(m, seen[p := s]) == Effect(Adopted(m, seen), p, s)
  {
    var all := seen[p := s];
    forall q
      ensures q in Adopted(m, all) <==> q in Effect(Adopted(m, seen), p, s)
      ensures q in Adopted(m, all) ==> Adopted(m, all)[q] == Effect(Adopted(m, seen), p, s)[q]
    {
      SupersededByOneMore(seen, p, s, q);
      if q in seen && seen[q].Modified? {
        assert Tracked(all, q);
        assert !s.Untracked? ==> Tracked(all, p) && !Related(p, q);
      }
    }
  }

  lemma AdoptOneFlat(t: Tree, p: Path, s: Status)
    requires Canonical(t) && ValidPath(p)
    ensures Canonical(AdoptOne(t, p, s)) && Flat(AdoptOne(t, p, s)) == Effect(Flat(t), p, s)
  {
    if !s.Untracked? {
      var blob := if s.Modified? then Some(s.content) else None;
      ApplyCanonical(t, p, blob);
      FlatApply(t, p, blob);
    }
  }

  lemma AdoptStep(base: Tree, st: map<Path, Status>, todo: set<Path>, t: Tree, p: Path)
    requires Apart(st) && p in todo && todo <= st.Keys
    requires Canonical(t) && Flat(t) == Adopted(Flat(base), Restrict(st, st.Keys - todo))
    ensures ValidPath(p) && Canonical(AdoptOne(t, p, st[p]))
    ensures Flat(AdoptOne(t, p, st[p])) == Adopted(Flat(base), Restrict(st, st.Keys - (todo - {p})))
  {
    var seen := Restrict(st, st.Keys - todo);
    assert Restrict(st, st.Keys - (todo - {p})) == seen[p := st[p]];
    ApartSub(seen[p := st[p]], st);
    AdoptedOneMore(Flat(base), seen, p, st[p]);
    AdoptOneFlat(t, p, st[p]);
  }

  /** An order in which a loop may visit paths of the status map: each once. */
  predicate Visits(order: seq<Path>, st: map<Path, Status>) {
    && (forall k :: 0 <= k < |order| ==> order[k] in st && |order[k]| > 0)
    && (forall j, k :: 0 <= j < k < |order| ==> order[j] != order[k])
  }

  function Seen(order: seq<Path>): set<Path> {
    set p | p in order
  }

  /** The fold along one iteration order. */
  function AdoptInOrder(base: Tree, st: map<Path, Status>, order: seq<Path>): Tree
    requires Visits(order, st)
  {
    if order == [] then base
    else
      var n := |order| - 1;
      AdoptOne(AdoptInOrder(base, st, order[..n]), order[n], st[order[n]])
  }

  lemma NothingVisited(base: Tree, st: map<Path, Status>)
    ensures Visits([], st) && Seen([]) == {} && AdoptInOrder(base, st, []) == base
  {
  }

  lemma VisitsPush(base: Tree, order: seq<Path>, st: map<Path, Status>, p: Path)
    requires Visits(order, st) && p in st && |p| > 0 && p !in order
    ensures Visits(order + [p], st) && Seen(order + [p]) == Seen(order) + {p}
    ensures AdoptInOrder(base, st, order + [p]) == AdoptOne(AdoptInOrder(base, st, order), p, st[p])
  {
    assert (order + [p])[..|order|] == order;
    hide AdoptOne;
  }

  /** However far it got, the fold is HEAD with the visited changes. */
  lemma {:induction false} AdoptInOrderFlat(base: Tree, st: map<Path, Status>, order: seq<Path>)
    requires Canonical(base) && Apart(st) && Visits(order, st)
    ensures Canonical(AdoptInOrder(base, st, order))
    ensures Flat(AdoptInOrder(base, st, order)) == Adopted(Flat(base), Restrict(st, Seen(order)))
  {
    if order == [] {
      assert Restrict(st, Seen(order)) == map[];
      assert Adopted(Flat(base), map[]) == Flat(base);
    } else {
      hide Canonical, Flat, Adopted, AdoptOne, Apart, Restrict;
      var n := |order| - 1;
      var p := order[n];
      AdoptInOrderFlat(base, st, order[..n]);
      assert order[..n] + [p] == order;
      VisitsPush(base, order[..n], st, p);
      var todo := st.Keys - Seen(order[..n]);
      assert st.Keys - todo == Seen(order[..n]) && st.Keys - (todo - {p}) == Seen(order);
      hide AdoptInOrder, Seen, Visits;
      AdoptStep(base, st, todo, AdoptInOrder(base, st, order[..n]), p);
    }
  }

  /** Recovery is confluent: whatever order two loops visit the status map in, they build the same tree. */
  lemma RepairIsConfluent(base: Tree, st: map<Path, Status>, one: seq<Path>, other: seq<Path>)
    requires Canonical(base) && Apart(st)
    requires Visits(one, st) && Visits(other, st) && Seen(one) == Seen(other) == st.Keys
    ensures AdoptInOrder(base, st, one) == AdoptInOrder(base, st, other)
  {
    AdoptInOrderFlat(base, st, one);
    AdoptInOrderFlat(base, st, other);
    RestrictAll(st);
    FlatDetermines(AdoptInOrder(base, st, one), AdoptInOrder(base, st, other));
  }

  /** The repair loop, in whatever order the map is iterated: HEAD with the tracked changes. */
  method RepairTrackedChanges(base: Tree, st: map<Path, Status>) returns (newTree: Tree, ghost order: seq<Path>)
    requires Canonical(base) && Apart(st)
    ensures Canonical(newTree)
    ensures Flat(newTree) == Adopted(Flat(base), st)
    ensures Visits(order, st) && Seen(order) == st.Keys && newTree == AdoptInOrder(base, st, order)
  {
    hide *;
    newTree, order := base, [];
    var todo := st.Keys;
    NothingVisited(base, st);
    while todo != {}
      invariant todo <= st.Keys && Visits(order, st) && Seen(order) == st.Keys - todo
      invariant newTree == AdoptInOrder(base, st, order)
      decreases todo
    {
      var p :| p in todo;
      PathNotEmpty(st, p);
      NotSeen(order, p);
      VisitsPush(base, order, st, p);
      newTree := AdoptOne(newTree, p, st[p]);
      order := order + [p];
      todo := todo - {p};
    }
    assert st.Keys - todo == st.Keys;
    AdoptInOrderFlat(base, st, order);
    RestrictAll(st);
  }

  lemma NotSeen(order: seq<Path>, p: Path)
    ensures p in Seen(order) <==> p in order
  {
  }

  lemma RestrictAll(st: map<Path, Status>)
    ensures Restrict(st, st.Keys) == st
  {
  }

  lemma PathNotEmpty(st: map<Path, Status>, p: Path)
    requires Apart(st) && p in st
    ensures |p| > 0
  {
  }

  ghost function Restrict(st: map<Path, Status>, ks: set<Path>): map<Path, Status> {
    map p | p in st && p in ks :: st[p]
  }

  lemma ApartSub(a: map<Path, Status>, st: map<Path, Status>)
    requires Apart(st) && forall p :: p in a ==> p in st && a[p] == st[p]
    ensures Apart(a)
  {
    forall p, q | Tracked(a, p) && Tracked(a, q) && p != q ensures !Related(p, q) {
      assert Tracked(st, p) && Tracked(st, q);
    }
  }

  /** When only paths of HEAD are tracked, exactly those change and nothing untracked is adopted. */
  lemma OnlyTrackedPathsChange(base: Tree, st: map<Path, Status>, q: Path)
    requires Canonical(base) && Apart(st)
    requires forall p :: Tracked(st, p) ==> p in Flat(base)
    ensures q in Adopted(Flat(base), st) <==> q in Flat(base) && !(q in st && st[q].Deleted?)
    ensures q in Adopted(Flat(base), st) ==>
              Adopted(Flat(base), st)[q] == if q in st && st[q].Modified? then st[q].content else Flat(base)[q]
  {
    if q in Flat(base) {
      if Superseded(st, q) {
        var p :| Tracked(st, p) && Related(p, q);
        TreePathsApart(base, p, q);
      } else {
        assert !Tracked(st, q);
      }
    }
    if q in st && st[q].Modified? { assert Tracked(st, q); }
  }

  /** A tree never holds a file both at and below a path. */
  lemma {:induction false} TreePathsApart(t: Tree, p: Path, q: Path)
    requires Canonical(t) && p in Flat(t) && q in Flat(t) && Related(p, q)
    ensures p == q
    decreases t
  {
    FlatIsGet(t, p);
    FlatIsGet(t, q);
    GetApart(t, p, q);
  }

  lemma GetApart(t: Tree, p: Path, q: Path)
    requires Get(t, p).Some? && Get(t, q).Some? && Related(p, q)
    ensures p == q
    decreases |p|
  {
    assert p[0] == q[0];
    if |p| > 1 && |q| > 1 {
      GetApart(Find(t, p[0]).value.entries, p[1..], q[1..]);
      assert p == [p[0]] + p[1..] && q == [q[0]] + q[1..];
    }
  }
}
