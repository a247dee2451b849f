/**
 * The pure decisions of the main process: which directory entries the
 * note tree lists (`getFileTree`), the two orders it sorts them in, the
 * extension `create-file` gives a new file and the path `move-entry`
 * moves an entry to.
 */
module MainProcess {
  import opened Wrappers
  import opened JsString
  import opened NoteTree

  /** The file that stores a folder's custom order. */
  const OrderFile := "_folder_order.json"

  /** What `fs.statSync` reports for an entry: a directory, anything else, or an error. */
  datatype Stat = Directory | NotDirectory | StatFailed

  /** A name returned by `fs.readdirSync` with the result of its `stat`. */
  datatype DirEntry = DirEntry(name: string, stat: Stat)

  /** `path.join(dir, name)` for a normalised folder path and a plain name. */
  function JoinPath(dir: string, name: string, sep: char): (p: string)
    ensures StartsWith(p, dir + [sep]) && EndsWith(p, name)
    ensures |p| == |dir| + 1 + |name|
  {
    dir + [sep] + name
  }

  /** `path.basename(p)`: the text after the last separator. */
  function Basename(p: string, sep: char): (r: string)
    ensures sep !in r && EndsWith(p, r)
    ensures |r| == |p| || p[|p| - |r| - 1] == sep
  {
    var k := LastIndexOf(p, sep);
    p[k + 1..]
  }

  /** The base name of a joined path is the name joined on. */
  lemma BasenameOfJoin(dir: string, name: string, sep: char)
    requires sep !in name
    ensures Basename(JoinPath(dir, name, sep), sep) == name
  {
    LastIndexOfBefore(dir, sep, name);
  }

  /** An entry `getFileTree` lists: a readable directory, or a `.md` or `.ahk` file. */
  predicate Kept(e: DirEntry) {
    && e.name != OrderFile
    && (e.stat.Directory? || (e.stat.NotDirectory? && (EndsWith(e.name, ".md") || EndsWith(e.name, ".ahk"))))
  }

  /**
   * The listing loop of `getFileTree(dir)`, in directory order. `subtree`
   * stands for the recursive listing of a sub-folder.
   */
  function ListEntries(dir: string, entries: seq<DirEntry>, subtree: string -> seq<Node>, sep: char): (r: seq<Node>)
    ensures |r| <= |entries|
    ensures forall i :: 0 <= i < |r| ==> r[i].name != OrderFile
    ensures forall i :: 0 <= i < |r| ==> r[i].path == JoinPath(dir, r[i].name, sep)
    ensures forall i :: 0 <= i < |r| && r[i].File? ==> EndsWith(r[i].name, ".md") || EndsWith(r[i].name, ".ahk")
  {
    if |entries| == 0 then []
    else
      var e := entries[0];
      var full := JoinPath(dir, e.name, sep);
      var here :=
        if e.name == OrderFile || e.stat.StatFailed? then []
        else if e.stat.Directory? then [Folder(e.name, full, subtree(full))]
        else if EndsWith(e.name, ".md") || EndsWith(e.name, ".ahk") then [File(e.name, full)]
        else [];
      here + ListEntries(dir, entries[1..], subtree, sep)
  }

  /**
   * A name is listed exactly when one of the directory's entries with
   * that name is kept; a folder is listed for a directory, a file for
   * anything else.
   */
  lemma {:induction false} ListEntriesMembership(dir: string, entries: seq<DirEntry>, subtree: string -> seq<Node>,
                                                 sep: char, n: Node)
    ensures n in ListEntries(dir, entries, subtree, sep)
            <==> exists i :: 0 <= i < |entries| && entries[i].name == n.name && Kept(entries[i])
                             && (if entries[i].stat.Directory?
                                 then n == Folder(n.name, JoinPath(dir, n.name, sep), subtree(JoinPath(dir, n.name, sep)))
                                 else n == File(n.name, JoinPath(dir, n.name, sep)))
  {
    if |entries| > 0 {
      ListEntriesMembership(dir, entries[1..], subtree, sep, n);
      var rest := entries[1..];
      assert forall i :: 1 <= i < |entries| ==> entries[i] == rest[i - 1];
      assert forall i :: 0 <= i < |rest| ==> rest[i] == entries[i + 1];
    }
  }

  /** The order file is never listed, whatever the directory holds. */
  lemma OrderFileNeverListed(dir: string, entries: seq<DirEntry>, subtree: string -> seq<Node>, sep: char)
    ensures forall n :: n in ListEntries(dir, entries, subtree, sep) ==> n.name != OrderFile
  {
  }

  /** `a.localeCompare(b)` stands for a collation on names, given as a parameter. */
  type Collation = (string, string) -> int

  /** The comparator used with a non-empty custom order. */
  function CustomCompare(order: seq<string>, collate: Collation, a: Node, b: Node): (r: int)
    ensures a.name in order && b.name !in order ==> r < 0
    ensures a.name !in order && b.name in order ==> r > 0
    ensures a.name in order && b.name in order ==> r == ArrayIndexOf(order, a.name) - ArrayIndexOf(order, b.name)
    ensures a.name !in order && b.name !in order ==>
              r == if a.Folder? == b.Folder? then collate(a.name, b.name) else if a.Folder? then -1 else 1
  {
    var ia := ArrayIndexOf(order, a.name);
    var ib := ArrayIndexOf(order, b.name);
    if ia != -1 && ib != -1 then ia - ib
    else if ia != -1 then -1
    else if ib != -1 then 1
    else if a.Folder? && !b.Folder? then -1
    else if !a.Folder? && b.Folder? then 1
    else collate(a.name, b.name)
  }

  /**
   * The comparator used without a custom order, as written: its first
   * test asks whether `b` is not a file, where "is not a folder" is meant.
   */
  function DefaultCompareAsWritten(collate: Collation, a: Node, b: Node): (r: int)
    ensures a.Folder? && b.Folder? ==> r < 0
    ensures a.File? && b.Folder? ==> r > 0
    ensures b.File? ==> r == collate(a.name, b.name)
  {
    if a.Folder? && !b.File? then -1
    else if a.File? && b.Folder? then 1
    else collate(a.name, b.name)
  }

  /**
   * The comparator as written is not a consistent comparator: two
   * folders are each smaller than the other, and a folder whose name
   * collates after a file's is larger than the file both ways round.
   */
  lemma DefaultCompareAsWrittenInconsistent(collate: Collation, f: Node, g: Node, file: Node)
    requires f.Folder? && g.Folder? && file.File?
    ensures DefaultCompareAsWritten(collate, f, g) < 0 && DefaultCompareAsWritten(collate, g, f) < 0
    ensures collate(f.name, file.name) > 0
            ==> DefaultCompareAsWritten(collate, f, file) > 0 && DefaultCompareAsWritten(collate, file, f) > 0
  {
  }

  /** The default comparator evidently intended: folders first, then by name. */
  function DefaultCompare(collate: Collation, a: Node, b: Node): (r: int)
    ensures a.Folder? && b.File? ==> r < 0
    ensures a.File? && b.Folder? ==> r > 0
    ensures a.Folder? == b.Folder? ==> r == collate(a.name, b.name)
  {
    if a.Folder? && !b.Folder? then -1
    else if a.File? && b.Folder? then 1
    else collate(a.name, b.name)
  }

  /** Comparing the other way round gives the opposite sign. */
  ghost predicate Antisymmetric(cmp: (Node, Node) -> int, u: seq<Node>) {
    forall a, b :: a in u && b in u && cmp(a, b) > 0 ==> cmp(b, a) < 0
  }

  /** A collation that gives the opposite sign the other way round. */
  ghost predicate AntisymmetricCollation(collate: Collation) {
    forall x, y :: collate(x, y) > 0 ==> collate(y, x) < 0
  }

  /** Both corrected comparators are antisymmetric when the collation is. */
  lemma ComparatorsAntisymmetric(order: seq<string>, collate: Collation, u: seq<Node>)
    requires AntisymmetricCollation(collate)
    ensures Antisymmetric((a, b) => CustomCompare(order, collate, a, b), u)
    ensures Antisymmetric((a, b) => DefaultCompare(collate, a, b), u)
  {
  }

  /** Inserts `x` into `s` after every element it does not compare below. */
  function Insert(cmp: (Node, Node) -> int, x: Node, s: seq<Node>): (r: seq<Node>)
    ensures multiset(r) == multiset(s) + multiset{x}
    ensures |r| == |s| + 1 && (r[0] == x || (|s| > 0 && r[0] == s[0]))
  {
    if |s| == 0 then [x]
    else if cmp(x, s[0]) < 0 then [x] + s
    else
      assert s == [s[0]] + s[1..];
      [s[0]] + Insert(cmp, x, s[1..])
  }

  /**
   * `Array.prototype.sort(cmp)`: a stable sort, here by insertion. For a
   * consistent comparator every stable sort gives this result.
   */
  function SortBy(cmp: (Node, Node) -> int, s: seq<Node>): (r: seq<Node>)
    ensures multiset(r) == multiset(s)
  {
    if |s| == 0 then []
    else
      assert s == s[..|s| - 1] + [s[|s| - 1]];
      Insert(cmp, s[|s| - 1], SortBy(cmp, s[..|s| - 1]))
  }

  /** Neighbours are in comparator order. */
  ghost predicate LocallySorted(cmp: (Node, Node) -> int, s: seq<Node>) {
    forall i :: 0 <= i < |s| - 1 ==> cmp(s[i], s[i + 1]) <= 0
  }

  lemma {:induction false} InsertLocallySorted(cmp: (Node, Node) -> int, x: Node, s: seq<Node>, u: seq<Node>)
    requires LocallySorted(cmp, s)
    requires Antisymmetric(cmp, u) && x in u && forall y :: y in s ==> y in u
    ensures LocallySorted(cmp, Insert(cmp, x, s))
  {
    if |s| > 0 && cmp(x, s[0]) >= 0 {
      var tail := Insert(cmp, x, s[1..]);
      InsertLocallySorted(cmp, x, s[1..], u);
      if tail[0] == x {
        assert cmp(s[0], x) <= 0;
      } else {
        assert tail[0] == s[1];
      }
    }
  }

  /** With an antisymmetric comparator, every neighbour pair of the result is in order. */
  lemma {:induction false} SortLocallySorted(cmp: (Node, Node) -> int, s: seq<Node>)
    requires Antisymmetric(cmp, s)
    ensures LocallySorted(cmp, SortBy(cmp, s))
  {
    if |s| > 0 {
      var init := s[..|s| - 1];
      assert forall y :: y in init ==> y in s;
      SortLocallySorted(cmp, init);
      var sorted := SortBy(cmp, init);
      assert forall y :: y in sorted ==> y in s by {
        forall y | y in sorted ensures y in s {
          assert y in multiset(init);
        }
      }
      InsertLocallySorted(cmp, s[|s| - 1], sorted, s);
    }
  }

  /** `cmp` puts an element with a smaller key first, whichever way round it is asked. */
  ghost predicate RespectsKey(cmp: (Node, Node) -> int, key: Node -> int, u: seq<Node>) {
    forall a, b :: a in u && b in u && key(a) < key(b) ==> cmp(a, b) < 0 && cmp(b, a) > 0
  }

  /** Keys never decrease along the sequence. */
  ghost predicate KeySorted(key: Node -> int, s: seq<Node>) {
    forall i, j :: 0 <= i < j < |s| ==> key(s[i]) <= key(s[j])
  }

  /** A key no larger than any other can go in front. */
  lemma PrependKeySorted(key: Node -> int, y: Node, s: seq<Node>)
    requires KeySorted(key, s)
    requires forall z :: z in s ==> key(y) <= key(z)
    ensures KeySorted(key, [y] + s)
  {
    var r := [y] + s;
    forall i, j | 0 <= i < j < |r|
      ensures key(r[i]) <= key(r[j])
    {
      assert r[j] == s[j - 1];
      if i > 0 {
        assert r[i] == s[i - 1];
      }
    }
  }

  lemma {:induction false} InsertKeySorted(cmp: (Node, Node) -> int, key: Node -> int, x: Node, s: seq<Node>, u: seq<Node>)
    requires KeySorted(key, s)
    requires RespectsKey(cmp, key, u) && x in u && forall y :: y in s ==> y in u
    ensures KeySorted(key, Insert(cmp, x, s))
  {
    if |s| == 0 {
    } else if cmp(x, s[0]) < 0 {
      assert s[0] in u;
      assert key(x) <= key(s[0]);
      forall z | z in s
        ensures key(x) <= key(z)
      {
        var k :| 0 <= k < |s| && s[k] == z;
        if k > 0 {
          assert key(s[0]) <= key(s[k]);
        }
      }
      PrependKeySorted(key, x, s);
    } else {
      assert s[0] in u;
      assert key(s[0]) <= key(x);
      var tail := Insert(cmp, x, s[1..]);
      assert KeySorted(key, s[1..]) by {
        forall i, j | 0 <= i < j < |s[1..]|
          ensures key(s[1..][i]) <= key(s[1..][j])
        {
          assert s[1..][i] == s[i + 1] && s[1..][j] == s[j + 1];
        }
      }
      InsertKeySorted(cmp, key, x, s[1..], u);
      forall z | z in tail
        ensures key(s[0]) <= key(z)
      {
        assert z in multiset(s[1..]) + multiset{x};
        if z != x {
          assert z in s[1..];
          var k :| 0 <= k < |s[1..]| && s[1..][k] == z;
          assert s[k + 1] == z;
        }
      }
      PrependKeySorted(key, s[0], tail);
    }
  }

  /** A comparator that respects a key sorts by that key. */
  lemma {:induction false} SortKeySorted(cmp: (Node, Node) -> int, key: Node -> int, s: seq<Node>)
    requires RespectsKey(cmp, key, s)
    ensures KeySorted(key, SortBy(cmp, s))
  {
    if |s| > 0 {
      var init := s[..|s| - 1];
      assert forall y :: y in init ==> y in s;
      SortKeySorted(cmp, key, init);
      var sorted := SortBy(cmp, init);
      assert forall y :: y in sorted ==> y in s by {
        forall y | y in sorted ensures y in s {
          assert y in multiset(init);
        }
      }
      InsertKeySorted(cmp, key, s[|s| - 1], sorted, s);
    }
  }

  /**
   * The key the custom comparator sorts by: a listed name's position in
   * the order; after all of them the unlisted folders, then the unlisted
   * files.
   */
  function CustomKey(order: seq<string>, n: Node): int {
    var i := ArrayIndexOf(order, n.name);
    if i != -1 then i else |order| + (if n.Folder? then 0 else 1)
  }

  lemma CustomCompareRespectsKey(order: seq<string>, collate: Collation, u: seq<Node>)
    ensures RespectsKey((a, b) => CustomCompare(order, collate, a, b), (n => CustomKey(order, n)), u)
  {
  }

  /** Folders, then files. */
  function KindKey(n: Node): int {
    if n.Folder? then 0 else 1
  }

  lemma DefaultCompareRespectsKey(collate: Collation, u: seq<Node>)
    ensures RespectsKey((a, b) => DefaultCompare(collate, a, b), KindKey, u)
  {
  }

  /** The sort at the end of `getFileTree`, with the intended default comparator. */
  function SortListing(order: seq<string>, collate: Collation, nodes: seq<Node>): (r: seq<Node>)
    ensures multiset(r) == multiset(nodes)
  {
    if |order| > 0 then SortBy((a, b) => CustomCompare(order, collate, a, b), nodes)
    else SortBy((a, b) => DefaultCompare(collate, a, b), nodes)
  }

  /**
   * With a custom order, every listed name comes before every unlisted
   * one, listed names follow the order, and unlisted folders come before
   * unlisted files.
   */
  lemma CustomOrderListing(order: seq<string>, collate: Collation, nodes: seq<Node>)
    requires |order| > 0
    ensures var r := SortListing(order, collate, nodes);
            forall i, j :: 0 <= i < j < |r| ==>
              && (r[j].name in order ==> r[i].name in order)
              && (r[i].name in order && r[j].name in order
                  ==> ArrayIndexOf(order, r[i].name) <= ArrayIndexOf(order, r[j].name))
              && (r[i].name !in order && r[j].name !in order && r[j].Folder? ==> r[i].Folder?)
  {
    var cmp := (a, b) => CustomCompare(order, collate, a, b);
    var key := (n => CustomKey(order, n));
    CustomCompareRespectsKey(order, collate, nodes);
    SortKeySorted(cmp, key, nodes);
    var r := SortListing(order, collate, nodes);
    assert r == SortBy(cmp, nodes);
    forall i, j | 0 <= i < j < |r|
      ensures r[j].name in order ==> r[i].name in order
      ensures r[i].name in order && r[j].name in order
              ==> ArrayIndexOf(order, r[i].name) <= ArrayIndexOf(order, r[j].name)
      ensures r[i].name !in order && r[j].name !in order && r[j].Folder? ==> r[i].Folder?
    {
      assert key(r[i]) <= key(r[j]);
    }
  }

  /** Without a custom order, folders come before files. */
  lemma DefaultOrderListing(collate: Collation, nodes: seq<Node>)
    ensures var r := SortListing([], collate, nodes);
            forall i, j :: 0 <= i < j < |r| && r[j].Folder? ==> r[i].Folder?
  {
    var cmp := (a, b) => DefaultCompare(collate, a, b);
    DefaultCompareRespectsKey(collate, nodes);
    SortKeySorted(cmp, KindKey, nodes);
    var r := SortListing([], collate, nodes);
    assert r == SortBy(cmp, nodes);
    forall i, j | 0 <= i < j < |r| && r[j].Folder?
      ensures r[i].Folder?
    {
      assert KindKey(r[i]) <= KindKey(r[j]);
    }
  }

  /** The name `create-file` writes: `.md` is added unless it ends in `.md` or `.ahk`. */
  function WithNoteExtension(filename: string): (r: string)
    ensures EndsWith(r, ".md") || EndsWith(r, ".ahk")
    ensures r == filename <==> EndsWith(filename, ".md") || EndsWith(filename, ".ahk")
    ensures r != filename ==> r == filename + ".md"
  {
    if !EndsWith(filename, ".md") && !EndsWith(filename, ".ahk") then
      var r := filename + ".md";
      assert r[|r| - 3..] == ".md";
      r
    else filename
  }

  /** Adding the extension twice is adding it once. */
  lemma WithNoteExtensionIdempotent(filename: string)
    ensures WithNoteExtension(WithNoteExtension(filename)) == WithNoteExtension(filename)
  {
  }

  /**
   * `move-entry`: the entry keeps its name and goes into the given folder,
   * or the notes root when none is given; `None` when that is where it
   * already is (nothing is moved and `false` is returned).
   */
  function MoveTarget(oldPath: string, newFolder: Option<string>, root: string, sep: char): (r: Option<string>)
    ensures r.Some? ==> r.value != oldPath && Basename(r.value, sep) == Basename(oldPath, sep)
    ensures r.Some? ==> r.value == JoinPath(if Truthy(newFolder) then newFolder.value else root,
                                            Basename(oldPath, sep), sep)
    ensures r.None? <==> oldPath == JoinPath(if Truthy(newFolder) then newFolder.value else root,
                                             Basename(oldPath, sep), sep)
  {
    var targetDir := if Truthy(newFolder) then newFolder.value else root;
    var newPath := JoinPath(targetDir, Basename(oldPath, sep), sep);
    BasenameOfJoin(targetDir, Basename(oldPath, sep), sep);
    if oldPath != newPath then Some(newPath) else None
  }

  /** Moving an entry into the folder it is already in does nothing. */
  lemma MoveIntoOwnFolderIsNoop(folder: string, name: string, root: string, sep: char)
    requires folder != "" && sep !in name
    ensures MoveTarget(JoinPath(folder, name, sep), Some(folder), root, sep).None?
  {
    BasenameOfJoin(folder, name, sep);
  }
}
