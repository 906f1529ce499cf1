/**
 * Git trees as the committer builds them (internal/storage/commit.go): nested
 * entry lists, rebuilt bottom-up along one path, sorted per git's convention.
 * Structural equality stands for equality of tree hashes.
 */
module GitTree {
  import opened Wrappers
  import opened ByteOrder

  type Blob = string
  type Path = seq<string>

  datatype Node = File(content: Blob) | Dir(entries: Tree)
  datatype Entry = Entry(name: string, node: Node)
  type Tree = seq<Entry>

  // ---------------------------------------------------------------- operations

  /** Directory names compare as if suffixed with "/". */
  function TreeSortName(e: Entry): string {
    if e.node.Dir? then e.name + "/" else e.name
  }

  function WithoutEntry(t: Tree, name: string): Tree {
    if t == [] then []
    else if t[0].name == name then WithoutEntry(t[1..], name)
    else [t[0]] + WithoutEntry(t[1..], name)
  }

  /** The subtree under `name`: the last directory entry of that name wins, none reads as empty. */
  function SubTree(t: Tree, name: string): Tree {
    if t == [] then []
    else
      var last := t[|t| - 1];
      if last.name == name && last.node.Dir? then last.node.entries else SubTree(t[..|t| - 1], name)
  }

  function Insert(e: Entry, t: Tree): Tree {
    if t == [] || Less(TreeSortName(e), TreeSortName(t[0])) then [e] + t
    else [t[0]] + Insert(e, t[1..])
  }

  /** The entry order a stored tree has. `StoredOrderIsForced` shows that the sort used does not matter. */
  function StoreTree(t: Tree): Tree {
    if t == [] then [] else Insert(t[0], StoreTree(t[1..]))
  }

  /** Sets `comps` to a blob (`Some`) or removes it (`None`), rebuilding directories bottom-up. */
  function ApplyToTree(base: Tree, comps: Path, blob: Option<Blob>): Tree
    requires |comps| > 0
    decreases |comps|
  {
    var name := comps[0];
    var out := WithoutEntry(base, name);
    if |comps| == 1 then
      StoreTree(if blob.Some? then out + [Entry(name, File(blob.value))] else out)
    else
      var sub := ApplyToTree(SubTree(base, name), comps[1..], blob);
      StoreTree(if blob.None? && sub == [] then out else out + [Entry(name, Dir(sub))])
  }

  /** Removes the source, then adds the destination with the moved bytes. */
  function BuildMoveTree(base: Tree, src: Path, dst: Path, content: Blob): Tree
    requires |src| > 0 && |dst| > 0
  {
    ApplyToTree(ApplyToTree(base, src, None), dst, Some(content))
  }

  // ------------------------------------------------------------- flat meaning

  function Find(t: Tree, name: string): Option<Node> {
    if t == [] then None
    else if t[0].name == name then Some(t[0].node)
    else Find(t[1..], name)
  }

  /** The file at path `p`, if the tree holds one. */
  function Get(t: Tree, p: Path): Option<Blob>
    decreases |p|
  {
    if |p| == 0 then None
    else match Find(t, p[0])
      case None => None
      case Some(File(c)) => if |p| == 1 then Some(c) else None
      case Some(Dir(es)) => if |p| == 1 then None else Get(es, p[1..])
  }

  function Under(name: string, m: map<Path, Blob>): map<Path, Blob> {
    map p: Path | p in (set q | q in m :: [name] + q) :: m[p[1..]]
  }

  /** All files of a tree by path. */
  function Flat(t: Tree): map<Path, Blob> {
    if t == [] then map[]
    else
      Flat(t[1..]) +
      match t[0].node
      case File(c) => map[[t[0].name] := c]
      case Dir(es) => Under(t[0].name, Flat(es))
  }

  /** One path is the other or lies below it. */
  predicate Related(p: Path, q: Path) {
    p <= q || q <= p
  }

  /** The flat meaning of an update: everything on or below or above `p` goes, then `p` is set. */
  ghost function Update(m: map<Path, Blob>, p: Path, blob: Option<Blob>): map<Path, Blob> {
    var kept := map q | q in m && !Related(p, q) :: m[q];
    if blob.Some? then kept[p := blob.value] else kept
  }

  // ------------------------------------------------------------ canonical form

  predicate ValidName(name: string) {
    name != "" && '/' !in name
  }

  predicate ValidPath(p: Path) {
    |p| > 0 && forall i :: 0 <= i < |p| ==> ValidName(p[i])
  }

  predicate UniqueNames(t: Tree) {
    forall i, j :: 0 <= i < j < |t| ==> t[i].name != t[j].name
  }

  predicate Sorted(t: Tree) {
    forall i, j :: 0 <= i < j < |t| ==> Less(TreeSortName(t[i]), TreeSortName(t[j]))
  }

  /** A well-formed git tree: legal unique names, git order, no empty subdirectory, at every level. */
  predicate Canonical(t: Tree) {
    && UniqueNames(t)
    && Sorted(t)
    && forall i :: 0 <= i < |t| ==> CanonicalEntry(t[i])
  }

  predicate CanonicalEntry(e: Entry) {
    ValidName(e.name) && (e.node.Dir? ==> e.node.entries != [] && Canonical(e.node.entries))
  }

  // ---------------------------------------------------------- entries and Find

  lemma FindIsMembership(t: Tree, name: string, node: Node)
    requires UniqueNames(t)
    ensures Find(t, name) == Some(node) <==> Entry(name, node) in t
  {
    if t != [] {
      FindIsMembership(t[1..], name, node);
    }
  }

  lemma FindNone(t: Tree, name: string)
    ensures Find(t, name) == None <==> forall i :: 0 <= i < |t| ==> t[i].name != name
  {
    if t != [] {
      FindNone(t[1..], name);
      assert forall i :: 1 <= i < |t| ==> t[i] == t[1..][i - 1];
    }
  }

  lemma WithoutEntryKeeps(t: Tree, name: string)
    ensures forall e :: e in WithoutEntry(t, name) <==> e in t && e.name != name
    ensures UniqueNames(t) ==> UniqueNames(WithoutEntry(t, name))
  {
    if t != [] {
      WithoutEntryKeeps(t[1..], name);
      var w := WithoutEntry(t[1..], name);
      assert t == [t[0]] + t[1..];
      if UniqueNames(t) {
        assert UniqueNames(t[1..]);
        forall i | 0 <= i < |w| ensures w[i].name != t[0].name {
          assert w[i] in t[1..];
        }
      }
    }
  }

  lemma SubTreeIsFind(t: Tree, name: string)
    requires UniqueNames(t)
    ensures SubTree(t, name) ==
            match Find(t, name) case Some(Dir(es)) => es case _ => []
  {
    if t != [] {
      var n := |t| - 1;
      SubTreeIsFind(t[..n], name);
      assert t == t[..n] + [t[n]];
      if Find(t[..n], name).Some? {
        FindIsMembership(t[..n], name, Find(t[..n], name).value);
        FindIsMembership(t, name, Find(t[..n], name).value);
      } else {
        FindNone(t[..n], name);
        if t[n].name == name {
          FindIsMembership(t, name, t[n].node);
        } else {
          FindNone(t, name);
        }
      }
    }
  }

  // ------------------------------------------------------------------ sorting

  lemma InsertMultiset(e: Entry, t: Tree)
    ensures multiset(Insert(e, t)) == multiset(t) + multiset{e}
  {
    if !(t == [] || Less(TreeSortName(e), TreeSortName(t[0]))) {
      InsertMultiset(e, t[1..]);
      assert t == [t[0]] + t[1..];
    }
  }

  lemma StoreTreeMultiset(t: Tree)
    ensures multiset(StoreTree(t)) == multiset(t)
  {
    if t != [] {
      StoreTreeMultiset(t[1..]);
      InsertMultiset(t[0], StoreTree(t[1..]));
      assert t == [t[0]] + t[1..];
    }
  }

  lemma SameElements(s: Tree, t: Tree)
    requires multiset(s) == multiset(t)
    ensures forall e :: e in s <==> e in t
  {
    forall e ensures e in s <==> e in t {
      assert e in s <==> e in multiset(s);
      assert e in t <==> e in multiset(t);
    }
  }

  predicate DistinctKeys(t: Tree) {
    forall i, j :: 0 <= i < j < |t| ==> TreeSortName(t[i]) != TreeSortName(t[j])
  }

  lemma KeysOfUniqueNames(t: Tree)
    requires UniqueNames(t)
    requires forall i :: 0 <= i < |t| ==> ValidName(t[i].name)
    ensures DistinctKeys(t)
  {
    forall i, j | 0 <= i < j < |t| ensures TreeSortName(t[i]) != TreeSortName(t[j]) {
      if TreeSortName(t[i]) == TreeSortName(t[j]) { KeyDeterminesName(t[i], t[j]); }
    }
  }

  lemma KeyDeterminesName(a: Entry, b: Entry)
    requires ValidName(a.name) && ValidName(b.name)
    requires TreeSortName(a) == TreeSortName(b)
    ensures a.name == b.name
  {
    var k := TreeSortName(a);
    assert a.node.Dir? ==> k[|k| - 1] == '/' && a.name == k[..|k| - 1];
    assert b.node.Dir? ==> k[|k| - 1] == '/' && b.name == k[..|k| - 1];
    assert !a.node.Dir? ==> k[|k| - 1] in a.name;
    assert !b.node.Dir? ==> k[|k| - 1] in b.name;
  }

  lemma InsertSorted(e: Entry, t: Tree)
    requires Sorted(t)
    requires forall i :: 0 <= i < |t| ==> TreeSortName(t[i]) != TreeSortName(e)
    ensures Sorted(Insert(e, t))
  {
    if t == [] {
    } else if Less(TreeSortName(e), TreeSortName(t[0])) {
      forall i | 1 <= i < |t| ensures Less(TreeSortName(e), TreeSortName(t[i])) {
        LessTransitive(TreeSortName(e), TreeSortName(t[0]), TreeSortName(t[i]));
      }
    } else {
      LessTotal(TreeSortName(e), TreeSortName(t[0]));
      InsertSorted(e, t[1..]);
      InsertMultiset(e, t[1..]);
      var r := Insert(e, t[1..]);
      forall i | 0 <= i < |r| ensures Less(TreeSortName(t[0]), TreeSortName(r[i])) {
        assert r[i] in multiset(r);
        assert r[i] == e || r[i] in t[1..];
      }
    }
  }

  lemma StoreTreeSorted(t: Tree)
    requires DistinctKeys(t)
    ensures Sorted(StoreTree(t))
  {
    if t != [] {
      assert DistinctKeys(t[1..]);
      StoreTreeSorted(t[1..]);
      StoreTreeMultiset(t[1..]);
      SameElements(StoreTree(t[1..]), t[1..]);
      var r := StoreTree(t[1..]);
      forall i | 0 <= i < |r| ensures TreeSortName(r[i]) != TreeSortName(t[0]) {
        assert r[i] in t[1..];
        var j :| 0 <= j < |t[1..]| && t[1..][j] == r[i];
        assert t[j + 1] == r[i];
      }
      InsertSorted(t[0], r);
    }
  }

  /** Strictly sorted lists with the same elements are the same list. */
  lemma {:induction false} SortedIsUnique(s: Tree, t: Tree)
    requires Sorted(s) && Sorted(t)
    requires forall e :: e in s <==> e in t
    ensures s == t
  {
    assert t != [] ==> t[0] in s;
    if s != [] {
      assert s[0] in t;
      assert t != [] && t[0] in s;
      HeadIsLeast(s, t[0]);
      HeadIsLeast(t, s[0]);
      if s[0] != t[0] {
        LessTransitive(TreeSortName(s[0]), TreeSortName(t[0]), TreeSortName(s[0]));
        LessIrreflexive(TreeSortName(s[0]));
      }
      forall e ensures e in s[1..] <==> e in t[1..] {
        TailMembers(s, e);
        TailMembers(t, e);
      }
      SortedIsUnique(s[1..], t[1..]);
      assert s == [s[0]] + s[1..] && t == [t[0]] + t[1..];
    }
  }

  lemma HeadIsLeast(s: Tree, e: Entry)
    requires Sorted(s) && e in s
    ensures e == s[0] || Less(TreeSortName(s[0]), TreeSortName(e))
  {
  }

  lemma TailMembers(s: Tree, e: Entry)
    requires Sorted(s) && s != []
    ensures e in s[1..] <==> e in s && e != s[0]
  {
    if e in s[1..] {
      var j :| 0 <= j < |s[1..]| && s[1..][j] == e;
      assert s[j + 1] == e;
      LessIrreflexive(TreeSortName(e));
    }
    if e in s && e != s[0] {
      var j :| 0 <= j < |s| && s[j] == e;
      assert s[1..][j - 1] == e;
    }
  }

  /** Any git-ordered rearrangement of the entries is the stored one, whatever sort produced it. */
  lemma {:induction false} StoredOrderIsForced(t: Tree, u: Tree)
    requires UniqueNames(t)
    requires forall i :: 0 <= i < |t| ==> ValidName(t[i].name)
    requires multiset(u) == multiset(t) && Sorted(u)
    ensures u == StoreTree(t)
  {
    KeysOfUniqueNames(t);
    StoreTreeSorted(t);
    StoreTreeMultiset(t);
    SameElements(u, StoreTree(t));
    SortedIsUnique(u, StoreTree(t));
  }

  lemma {:induction false} StoreTreeKeepsNames(t: Tree)
    requires UniqueNames(t)
    requires forall i :: 0 <= i < |t| ==> ValidName(t[i].name)
    ensures Sorted(StoreTree(t)) && UniqueNames(StoreTree(t))
    ensures forall e :: e in StoreTree(t) <==> e in t
  {
    KeysOfUniqueNames(t);
    StoreTreeSorted(t);
    StoreTreeMultiset(t);
    var r := StoreTree(t);
    SameElements(r, t);
    forall i, j | 0 <= i < j < |r| ensures r[i].name != r[j].name {
      assert r[i] in t && r[j] in t;
      LessIrreflexive(TreeSortName(r[i]));
      assert r[i] != r[j];
    }
  }

  // ----------------------------------------------------- what one update does

  /** The entry the update puts under the first component, if any. */
  function NewEntry(base: Tree, comps: Path, blob: Option<Blob>): Option<Node>
    requires |comps| > 0
  {
    if |comps| == 1 then
      if blob.Some? then Some(File(blob.value)) else None
    else
      var sub := ApplyToTree(SubTree(base, comps[0]), comps[1..], blob);
      if blob.None? && sub == [] then None else Some(Dir(sub))
  }

  lemma ApplyOneLevel(base: Tree, comps: Path, blob: Option<Blob>)
    requires Canonical(base) && ValidPath(comps)
    ensures var r := ApplyToTree(base, comps, blob);
            && UniqueNames(r) && Sorted(r)
            && (forall i :: 0 <= i < |r| ==> r[i] in base || (r[i].name == comps[0] && NewEntry(base, comps, blob) == Some(r[i].node)))
            && Find(r, comps[0]) == NewEntry(base, comps, blob)
            && forall n :: n != comps[0] ==> Find(r, n) == Find(base, n)
  {
    var name := comps[0];
    var out := WithoutEntry(base, name);
    var added := NewEntry(base, comps, blob);
    var t := if added.Some? then out + [Entry(name, added.value)] else out;
    var r := ApplyToTree(base, comps, blob);
    assert r == StoreTree(t);
    WithoutEntryKeeps(base, name);
    forall i | 0 <= i < |out| ensures out[i] in base && out[i].name != name {
      assert out[i] in out;
    }
    assert UniqueNames(t);
    StoreTreeKeepsNames(t);
    forall i | 0 <= i < |r| ensures r[i] in base || (r[i].name == name && added == Some(r[i].node)) {
      assert r[i] in t;
    }
    if added.Some? {
      assert Entry(name, added.value) in t;
      FindIsMembership(r, name, added.value);
    } else {
      forall i | 0 <= i < |r| ensures r[i].name != name {
        assert r[i] in t;
      }
      FindNone(r, name);
    }
    forall n | n != name ensures Find(r, n) == Find(base, n) {
      FindElsewhere(base, r, n);
    }
  }

  lemma FindElsewhere(base: Tree, r: Tree, n: string)
    requires UniqueNames(base) && UniqueNames(r)
    requires forall e: Entry :: e.name == n ==> (e in r <==> e in base)
    ensures Find(r, n) == Find(base, n)
  {
    if Find(r, n).Some? {
      FindIsMembership(r, n, Find(r, n).value);
      FindIsMembership(base, n, Find(r, n).value);
    } else if Find(base, n).Some? {
      FindIsMembership(base, n, Find(base, n).value);
      FindIsMembership(r, n, Find(base, n).value);
    }
  }

  lemma SubTreeCanonical(t: Tree, name: string)
    requires Canonical(t)
    ensures Canonical(SubTree(t, name))
  {
    SubTreeIsFind(t, name);
    if Find(t, name).Some? {
      FindIsMembership(t, name, Find(t, name).value);
    }
  }

  /** The point law: the target gets the blob, everything related to it goes, the rest stays. */
  lemma {:induction false} ApplyGet(base: Tree, comps: Path, blob: Option<Blob>, q: Path)
    requires Canonical(base) && ValidPath(comps) && |q| > 0
    ensures Get(ApplyToTree(base, comps, blob), q) ==
            if q == comps then blob else if Related(comps, q) then None else Get(base, q)
    decreases |comps|
  {
    ApplyOneLevel(base, comps, blob);
    if q[0] != comps[0] {
      assert !Related(comps, q);
    } else if |comps| == 1 || |q| == 1 {
      assert comps[0] == q[0];
      hide ApplyToTree, Canonical;
    } else {
      SubTreeIsFind(base, comps[0]);
      SubTreeCanonical(base, comps[0]);
      ValidTail(comps);
      RelatedTails(comps, q);
      hide ApplyToTree, Canonical, SubTree, Related, ValidPath, UniqueNames, Sorted;
      ApplyGet(SubTree(base, comps[0]), comps[1..], blob, q[1..]);
    }
  }

  lemma ValidTail(p: Path)
    requires ValidPath(p) && |p| > 1
    ensures ValidPath(p[1..])
  {
  }

  lemma RelatedTails(p: Path, q: Path)
    requires |p| > 1 && |q| > 1 && p[0] == q[0]
    ensures Related(p, q) <==> Related(p[1..], q[1..])
    ensures p == q <==> p[1..] == q[1..]
  {
    assert q == [q[0]] + q[1..] && p == [q[0]] + p[1..];
    assert q[1..] <= p[1..] <==> q <= p;
    assert p[1..] <= q[1..] <==> p <= q;
  }

  /** The update keeps trees canonical: git order, unique names, no empty subdirectory. */
  lemma {:induction false} ApplyCanonical(base: Tree, comps: Path, blob: Option<Blob>)
    requires Canonical(base) && ValidPath(comps)
    ensures Canonical(ApplyToTree(base, comps, blob))
    decreases |comps|
  {
    ApplyOneLevel(base, comps, blob);
    if |comps| > 1 {
      SubTreeCanonical(base, comps[0]);
      ApplyCanonical(SubTree(base, comps[0]), comps[1..], blob);
      ApplyGet(SubTree(base, comps[0]), comps[1..], blob, comps[1..]);
    }
  }

  // -------------------------------------------------------------- flat maps

  lemma {:induction false} FlatIsGet(t: Tree, p: Path)
    requires Canonical(t)
    ensures p in Flat(t) <==> Get(t, p).Some?
    ensures p in Flat(t) ==> Get(t, p) == Some(Flat(t)[p])
    ensures p in Flat(t) ==> |p| > 0
    decreases t
  {
    if t != [] {
      assert Canonical(t[1..]) by {
        assert forall i :: 0 <= i < |t[1..]| ==> t[1..][i] == t[i + 1];
      }
      FlatIsGet(t[1..], p);
      if |p| > 0 && p[0] == t[0].name {
        FindNone(t[1..], p[0]);
        assert p == [p[0]] + p[1..];
        assert |p| == 1 ==> p == [p[0]];
        if t[0].node.Dir? {
          FlatIsGet(t[0].node.entries, p[1..]);
        }
      } else if |p| == 0 {
        if t[0].node.Dir? {
          assert p !in Under(t[0].name, Flat(t[0].node.entries));
        }
      }
    }
  }

  /** `ApplyToTree` refines the flat update: exactly the unrelated base paths survive, plus the new blob. */
  lemma {:induction false} FlatApply(base: Tree, comps: Path, blob: Option<Blob>)
    requires Canonical(base) && ValidPath(comps)
    ensures Flat(ApplyToTree(base, comps, blob)) == Update(Flat(base), comps, blob)
  {
    ApplyCanonical(base, comps, blob);
    var r := ApplyToTree(base, comps, blob);
    forall q: Path
      ensures q in Flat(r) <==> q in Update(Flat(base), comps, blob)
      ensures q in Flat(r) ==> Flat(r)[q] == Update(Flat(base), comps, blob)[q]
    {
      FlatIsGet(r, q);
      FlatIsGet(base, q);
      if |q| > 0 {
        ApplyGet(base, comps, blob, q);
      }
    }
  }

  lemma FlatMove(base: Tree, src: Path, dst: Path, content: Blob)
    requires Canonical(base) && ValidPath(src) && ValidPath(dst)
    ensures Canonical(BuildMoveTree(base, src, dst, content))
    ensures Flat(BuildMoveTree(base, src, dst, content)) == Update(Update(Flat(base), src, None), dst, Some(content))
  {
    ApplyCanonical(base, src, None);
    FlatApply(base, src, None);
    ApplyCanonical(ApplyToTree(base, src, None), dst, Some(content));
    FlatApply(ApplyToTree(base, src, None), dst, Some(content));
  }

  // ------------------------------------------- canonical trees are determined

  lemma {:induction false} NonEmptyHasFile(t: Tree) returns (p: Path)
    requires Canonical(t) && t != []
    ensures |p| > 0 && Get(t, p).Some?
    decreases t
  {
    match t[0].node
    case File(_) => p := [t[0].name];
    case Dir(es) =>
      assert CanonicalEntry(t[0]);
      var q := NonEmptyHasFile(es);
      p := [t[0].name] + q;
      assert p[1..] == q;
  }

  /** Same files, same tree: a canonical tree is determined by its flat map. */
  lemma {:induction false} FlatDetermines(s: Tree, t: Tree)
    requires Canonical(s) && Canonical(t)
    requires Flat(s) == Flat(t)
    ensures s == t
  {
    forall p: Path ensures Get(s, p) == Get(t, p) {
      FlatIsGet(s, p);
      FlatIsGet(t, p);
    }
    GetDetermines(s, t);
  }

  lemma {:induction false} GetDetermines(s: Tree, t: Tree)
    requires Canonical(s) && Canonical(t)
    requires forall p: Path :: Get(s, p) == Get(t, p)
    ensures s == t
    decreases s, 1
  {
    forall e ensures e in s <==> e in t {
      if e in s { EntryDetermined(s, t, e); }
      if e in t {
        FindIsMembership(t, e.name, e.node);
        var q := EntryFile(t, e);
        assert Get(s, q) == Get(t, q);
        var f := Entry(e.name, Find(s, e.name).value);
        FindIsMembership(s, f.name, f.node);
        EntryDetermined(s, t, f);
        FindIsMembership(t, f.name, f.node);
      }
    }
    SortedIsUnique(s, t);
  }

  /** Every entry of a canonical tree leads to a file. */
  lemma EntryFile(t: Tree, e: Entry) returns (q: Path)
    requires Canonical(t) && e in t
    ensures |q| > 0 && q[0] == e.name && Get(t, q).Some?
  {
    FindIsMembership(t, e.name, e.node);
    match e.node
    case File(_) => q := [e.name];
    case Dir(es) =>
      assert CanonicalEntry(e);
      var r := NonEmptyHasFile(es);
      q := [e.name] + r;
      assert q[1..] == r;
  }

  lemma {:induction false} EntryDetermined(s: Tree, t: Tree, e: Entry)
    requires Canonical(s) && Canonical(t) && e in s
    requires forall p: Path :: Get(s, p) == Get(t, p)
    ensures e in t
    decreases s, 0
  {
    FindIsMembership(s, e.name, e.node);
    assert CanonicalEntry(e);
    match e.node
    case File(c) =>
      assert Get(s, [e.name]) == Some(c) == Get(t, [e.name]);
      FindIsMembership(t, e.name, e.node);
    case Dir(es) =>
      var q := EntryFile(s, e);
      assert |q| > 1;
      assert Get(t, q).Some?;
      var es' := Find(t, e.name).value.entries;
      FindIsMembership(t, e.name, Dir(es'));
      assert CanonicalEntry(Entry(e.name, Dir(es')));
      forall p: Path ensures Get(es, p) == Get(es', p) {
        if |p| > 0 {
          var fp := [e.name] + p;
          assert fp[1..] == p;
          assert Get(s, fp) == Get(t, fp);
        }
      }
      var i :| 0 <= i < |s| && s[i] == e;
      GetDetermines(es, es');
  }

  // ------------------------------------------------------------------- redo

  lemma UpdateIdempotent(m: map<Path, Blob>, p: Path, blob: Option<Blob>)
    ensures Update(Update(m, p, blob), p, blob) == Update(m, p, blob)
  {
  }

  lemma UpdateMoveIdempotent(m: map<Path, Blob>, src: Path, dst: Path, content: Blob)
    requires !Related(src, dst)
    ensures var once := Update(Update(m, src, None), dst, Some(content));
            Update(Update(once, src, None), dst, Some(content)) == once
  {
  }

  /** Writing or deleting again what a tree already records leaves the very same tree. */
  lemma ApplyIdempotent(base: Tree, comps: Path, blob: Option<Blob>)
    requires Canonical(base) && ValidPath(comps)
    ensures var once := ApplyToTree(base, comps, blob); ApplyToTree(once, comps, blob) == once
  {
    var once := ApplyToTree(base, comps, blob);
    ApplyCanonical(base, comps, blob);
    ApplyCanonical(once, comps, blob);
    FlatApply(base, comps, blob);
    FlatApply(once, comps, blob);
    UpdateIdempotent(Flat(base), comps, blob);
    FlatDetermines(ApplyToTree(once, comps, blob), once);
  }

  /** Redoing a move whose ends are unrelated leaves the very same tree. */
  lemma MoveIdempotent(base: Tree, src: Path, dst: Path, content: Blob)
    requires Canonical(base) && ValidPath(src) && ValidPath(dst) && !Related(src, dst)
    ensures var once := BuildMoveTree(base, src, dst, content); BuildMoveTree(once, src, dst, content) == once
  {
    var once := BuildMoveTree(base, src, dst, content);
    FlatMove(base, src, dst, content);
    FlatMove(once, src, dst, content);
    UpdateMoveIdempotent(Flat(base), src, dst, content);
    FlatDetermines(BuildMoveTree(once, src, dst, content), once);
  }
}
