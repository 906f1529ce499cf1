/**
 * The index rebuild of internal/storage/refwrite.go: a depth-first walk over a
 * stored tree that keeps the file entries. git requires index entries in
 * ascending byte order of the full path; the walk delivers them that way.
 */
module GitIndex {
  import opened Wrappers
  import opened GitTree
  import opened ByteOrder

  datatype Item = Item(name: string, node: Node)
  datatype IndexEntry = IndexEntry(name: string, blob: Blob)

  function JoinName(base: string, name: string): string {
    if base == "" then name else base + "/" + name
  }

  /** The recursive tree walker: each entry with its full name, directories before their contents. */
  function Walk(t: Tree, base: string): seq<Item> {
    if t == [] then []
    else
      var name := JoinName(base, t[0].name);
      [Item(name, t[0].node)]
      + (if t[0].node.Dir? then Walk(t[0].node.entries, name) else [])
      + Walk(t[1..], base)
  }

  /** Rebuilds the index: every file of the tree, with its content, in strictly ascending name order. */
  method ResetIndexToTree(tree: Tree) returns (entries: seq<IndexEntry>)
    requires Canonical(tree)
    ensures forall i, j :: 0 <= i < j < |entries| ==> Less(entries[i].name, entries[j].name)
    ensures forall p :: p in Flat(tree) ==> IndexEntry(FullName(p), Flat(tree)[p]) in entries
    ensures forall e :: e in entries ==> exists p :: p in Flat(tree) && e == IndexEntry(FullName(p), Flat(tree)[p])
  {
    hide Flat, Canonical, Get, Less, JoinName, Walk, Files;
    var items := Walk(tree, "");
    entries := [];
    for i := 0 to |items|
      invariant entries == FileItems(items[..i])
    {
      assert items[..i + 1] == items[..i] + [items[i]];
      FileItemsAppend(items[..i], [items[i]]);
      if items[i].node.File? {
        entries := entries + [IndexEntry(items[i].name, items[i].node.content)];
      }
    }
    assert items[..|items|] == items;
    WalkIsFiles(tree, "");
    FilesAscending(tree, "");
    assert Ascending(entries);
    forall p | p in Flat(tree) ensures IndexEntry(FullName(p), Flat(tree)[p]) in entries {
      FlatIsGet(tree, p);
      GetIsListed(tree, "", p);
      assert Lead("") + FullName(p) == FullName(p);
    }
    forall e | e in entries ensures exists p :: p in Flat(tree) && e == IndexEntry(FullName(p), Flat(tree)[p]) {
      var i :| 0 <= i < |entries| && entries[i] == e;
      var p := ListedIsGet(tree, "", i);
      FlatIsGet(tree, p);
      assert Lead("") + FullName(p) == FullName(p);
    }
  }

  /** A path's name in the index. */
  function FullName(p: Path): string {
    if p == [] then ""
    else if |p| == 1 then p[0]
    else p[0] + "/" + FullName(p[1..])
  }

  function FileItems(items: seq<Item>): seq<IndexEntry> {
    if items == [] then []
    else (if items[0].node.File? then [IndexEntry(items[0].name, items[0].node.content)] else [])
         + FileItems(items[1..])
  }

  /** The files of a tree in walk order. */
  ghost function Files(t: Tree, base: string): seq<IndexEntry> {
    if t == [] then [] else EntryFiles(t[0], base) + Files(t[1..], base)
  }

  ghost function EntryFiles(e: Entry, base: string): seq<IndexEntry> {
    match e.node
    case File(c) => [IndexEntry(JoinName(base, e.name), c)]
    case Dir(es) => Files(es, JoinName(base, e.name))
  }

  ghost function Lead(base: string): string {
    if base == "" then "" else base + "/"
  }

  lemma FileItemsAppend(a: seq<Item>, b: seq<Item>)
    ensures FileItems(a + b) == FileItems(a) + FileItems(b)
  {
    if a == [] {
      assert a + b == b;
    } else {
      FileItemsAppend(a[1..], b);
      assert (a + b)[1..] == a[1..] + b;
    }
  }

  lemma {:induction false} WalkIsFiles(t: Tree, base: string)
    ensures FileItems(Walk(t, base)) == Files(t, base)
    decreases t
  {
    if t != [] {
      hide JoinName;
      var name := JoinName(base, t[0].name);
      var here := [Item(name, t[0].node)] + if t[0].node.Dir? then Walk(t[0].node.entries, name) else [];
      assert Walk(t, base) == here + Walk(t[1..], base);
      FileItemsAppend(here, Walk(t[1..], base));
      EntryWalkIsFiles(t[0], base);
      WalkIsFiles(t[1..], base);
    }
  }

  lemma {:induction false} EntryWalkIsFiles(e: Entry, base: string)
    ensures var name := JoinName(base, e.name);
            FileItems([Item(name, e.node)] + if e.node.Dir? then Walk(e.node.entries, name) else []) == EntryFiles(e, base)
    decreases e
  {
    hide JoinName;
    var name := JoinName(base, e.name);
    var below := if e.node.Dir? then Walk(e.node.entries, name) else [];
    FileItemsAppend([Item(name, e.node)], below);
    assert FileItems([Item(name, e.node)]) == if e.node.File? then [IndexEntry(name, e.node.content)] else [];
    if e.node.Dir? {
      WalkIsFiles(e.node.entries, name);
    }
  }

  /** Every listed name is its entry's sort name, extended only below a directory. */
  lemma {:induction false} EntryFilesNamed(e: Entry, base: string, i: nat) returns (u: string)
    requires CanonicalEntry(e) && i < |EntryFiles(e, base)|
    ensures EntryFiles(e, base)[i].name == Lead(base) + (TreeSortName(e) + u)
    ensures e.node.File? ==> u == ""
    decreases e, 1
  {
    if e.node.File? {
      u := "";
      assert Lead(base) + (e.name + "") == JoinName(base, e.name);
    } else {
      var k, v := FilesNamed(e.node.entries, JoinName(base, e.name), i);
      u := TreeSortName(e.node.entries[k]) + v;
      assert Lead(JoinName(base, e.name)) == Lead(base) + TreeSortName(e);
      assert Lead(base) + TreeSortName(e) + u == Lead(base) + (TreeSortName(e) + u);
    }
  }

  lemma {:induction false} FilesNamed(t: Tree, base: string, i: nat) returns (k: nat, u: string)
    requires Canonical(t) && i < |Files(t, base)|
    ensures k < |t| && Files(t, base)[i].name == Lead(base) + (TreeSortName(t[k]) + u)
    ensures t[k].node.File? ==> u == ""
    decreases t, 0
  {
    var n := |EntryFiles(t[0], base)|;
    if i < n {
      k := 0;
      u := EntryFilesNamed(t[0], base, i);
    } else {
      TailCanonical(t);
      k, u := FilesNamed(t[1..], base, i - n);
      k := k + 1;
    }
  }

  lemma TailCanonical(t: Tree)
    requires Canonical(t) && t != []
    ensures Canonical(t[1..])
  {
    assert forall i :: 0 <= i < |t[1..]| ==> t[1..][i] == t[i + 1];
  }

  /** A directory's sort name is no prefix of another entry's. */
  lemma DirKeyNoPrefix(e: Entry, f: Entry)
    requires ValidName(e.name) && ValidName(f.name) && e.name != f.name && e.node.Dir?
    ensures !(TreeSortName(e) <= TreeSortName(f))
  {
    var a, b := TreeSortName(e), TreeSortName(f);
    assert a[|e.name|] == '/' && a[..|e.name|] == e.name;
    if |f.name| > |e.name| {
      assert b[|e.name|] == f.name[|e.name|];
    } else if |f.name| == |e.name| {
      assert b[..|e.name|] == f.name;
    }
  }

  /** Anything at or below an earlier entry comes before anything at or below a later one. */
  lemma EntryOrder(e: Entry, f: Entry, u: string, v: string)
    requires ValidName(e.name) && ValidName(f.name) && e.name != f.name
    requires Less(TreeSortName(e), TreeSortName(f))
    requires e.node.File? ==> u == ""
    ensures Less(TreeSortName(e) + u, TreeSortName(f) + v)
  {
    var a, b := TreeSortName(e), TreeSortName(f);
    if e.node.Dir? {
      DirKeyNoPrefix(e, f);
    }
    if a <= b {
      LessIrreflexive(a);
      assert |a| == |b| ==> a == b;
      PrefixIsLess(a, b[|a|..] + v);
      assert a + (b[|a|..] + v) == b + v && a + u == a;
    } else {
      LessExtends(a, b, u, v);
    }
  }

  lemma AcrossEntries(t: Tree, base: string, i: nat, j: nat)
    requires Canonical(t) && t != []
    requires i < |EntryFiles(t[0], base)| && j < |Files(t[1..], base)|
    ensures Less(EntryFiles(t[0], base)[i].name, Files(t[1..], base)[j].name)
  {
    TailCanonical(t);
    assert CanonicalEntry(t[0]);
    var u := EntryFilesNamed(t[0], base, i);
    var k, v := FilesNamed(t[1..], base, j);
    var f := t[1..][k];
    assert f == t[k + 1] && CanonicalEntry(f);
    EntryOrder(t[0], f, u, v);
    LessUnderPrefix(Lead(base), TreeSortName(t[0]) + u, TreeSortName(f) + v);
  }

  ghost predicate Ascending(es: seq<IndexEntry>) {
    forall i, j :: 0 <= i < j < |es| ==> Less(es[i].name, es[j].name)
  }

  /** The walk lists full file names in strictly ascending byte order. */
  lemma {:induction false} FilesAscending(t: Tree, base: string)
    requires Canonical(t)
    ensures Ascending(Files(t, base))
    decreases t
  {
    if t != [] {
      TailCanonical(t);
      FilesAscending(t[1..], base);
      var head, tail := EntryFiles(t[0], base), Files(t[1..], base);
      assert CanonicalEntry(t[0]);
      if t[0].node.Dir? {
        FilesAscending(t[0].node.entries, JoinName(base, t[0].name));
      }
      forall i, j | 0 <= i < |head| && 0 <= j < |tail| ensures Less(head[i].name, tail[j].name) {
        AcrossEntries(t, base, i, j);
      }
      AscendingConcat(head, tail);
    }
  }

  lemma AscendingConcat(a: seq<IndexEntry>, b: seq<IndexEntry>)
    requires Ascending(a) && Ascending(b)
    requires forall i, j :: 0 <= i < |a| && 0 <= j < |b| ==> Less(a[i].name, b[j].name)
    ensures Ascending(a + b)
  {
  }

  /** The walk lists every file. */
  lemma {:induction false} GetIsListed(t: Tree, base: string, p: Path)
    requires Canonical(t) && Get(t, p).Some?
    ensures IndexEntry(Lead(base) + FullName(p), Get(t, p).value) in Files(t, base)
    decreases t
  {
    var x := IndexEntry(Lead(base) + FullName(p), Get(t, p).value);
    assert CanonicalEntry(t[0]);
    if p[0] != t[0].name {
      TailCanonical(t);
      GetIsListed(t[1..], base, p);
    } else if t[0].node.File? {
      assert Lead(base) + FullName(p) == JoinName(base, p[0]);
      assert x in EntryFiles(t[0], base);
    } else {
      var sub := JoinName(base, p[0]);
      GetIsListed(t[0].node.entries, sub, p[1..]);
      assert FullName(p) == p[0] + "/" + FullName(p[1..]);
      assert Lead(sub) + FullName(p[1..]) == Lead(base) + FullName(p);
    }
  }

  /** The walk lists nothing but files. */
  lemma {:induction false} ListedIsGet(t: Tree, base: string, i: nat) returns (p: Path)
    requires Canonical(t) && i < |Files(t, base)|
    ensures |p| > 0 && Get(t, p) == Some(Files(t, base)[i].blob)
    ensures Files(t, base)[i].name == Lead(base) + FullName(p)
    decreases t
  {
    var n := |EntryFiles(t[0], base)|;
    if i >= n {
      TailCanonical(t);
      p := ListedIsGet(t[1..], base, i - n);
      FindNone(t[1..], t[0].name);
    } else if t[0].node.File? {
      p := [t[0].name];
    } else {
      assert CanonicalEntry(t[0]);
      var sub := JoinName(base, t[0].name);
      var q := ListedIsGet(t[0].node.entries, sub, i);
      p := [t[0].name] + q;
      assert p[1..] == q;
      assert Lead(sub) + FullName(q) == Lead(base) + FullName(p);
    }
  }
}
