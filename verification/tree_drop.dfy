/**
 * The decision the sidebar's `drop` handler takes when an entry is
 * dropped on another: nothing, a new order of the siblings, a refusal to
 * move a folder into itself, or a move into a folder.
 */
module TreeDrop {
  import opened JsString
  import opened NoteTree

  /**
   * The mark the last `dragover` left on the target: `drag-over-top`,
   * `drag-over-bottom`, or the plain `drag-over` of a folder's middle.
   */
  datatype Zone = Top | Bottom | Middle

  /**
   * The `dragover` handler's choice of mark, from the pointer's offset
   * below the target's top edge and the target's height: a file is split
   * into halves, a folder into its top quarter, its bottom quarter and
   * the middle between them.
   */
  function ZoneOf(target: Node, offsetY: real, height: real): (z: Zone)
    ensures target.File? ==> z != Middle
    ensures z == Top <==> offsetY < (if target.File? then height / 2.0 else height * 0.25)
    ensures target.Folder? ==> (z == Bottom <==> !(offsetY < height * 0.25) && offsetY > height * 0.75)
  {
    if target.File? then (if offsetY < height / 2.0 then Top else Bottom)
    else if offsetY < height * 0.25 then Top
    else if offsetY > height * 0.75 then Bottom
    else Middle
  }

  /** `\` when the target path holds one, else `/`. */
  function SeparatorOf(targetPath: string): (sep: char)
    ensures sep == '\\' || sep == '/'
    ensures sep == '\\' <==> '\\' in targetPath
  {
    if '\\' in targetPath then '\\' else '/'
  }

  /**
   * `p.substring(0, p.lastIndexOf(sep))`: the parent folder, or the empty
   * string when `p` has no separator (`substring` clamps the -1 to 0).
   */
  function ParentOf(p: string, sep: char): (r: string)
    ensures sep !in p ==> r == ""
    ensures sep in p ==> StartsWith(p, r + [sep])
  {
    var k := LastIndexOf(p, sep);
    if k < 0 then "" else p[..k]
  }

  /** `p.substring(p.lastIndexOf(sep) + 1)`: the last component, or all of `p`. */
  function NameOf(p: string, sep: char): (r: string)
    ensures sep !in r && EndsWith(p, r)
    ensures |r| == |p| || p[|p| - |r| - 1] == sep
  {
    p[LastIndexOf(p, sep) + 1..]
  }

  /**
   * Parent and name split a path at its last separator: the name holds
   * no separator, and a path with a separator is its parent, the
   * separator and its name.
   */
  lemma ParentNameSplit(p: string, sep: char)
    ensures sep !in NameOf(p, sep)
    ensures sep in p ==> p == ParentOf(p, sep) + [sep] + NameOf(p, sep)
    ensures sep !in p ==> ParentOf(p, sep) == "" && NameOf(p, sep) == p
  {
    var k := LastIndexOf(p, sep);
    if k >= 0 {
      assert p == p[..k] + [sep] + p[k + 1..];
    }
  }

  /** `names.filter(n => n !== x)` */
  function Without(names: seq<string>, x: string): (r: seq<string>)
    ensures x !in r
  {
    if |names| == 0 then []
    else (if names[0] == x then [] else [names[0]]) + Without(names[1..], x)
  }

  /** The filter keeps every other name as often as it occurs. */
  lemma {:induction false} WithoutCounts(names: seq<string>, x: string, y: string)
    requires y != x
    ensures multiset(Without(names, x))[y] == multiset(names)[y]
  {
    if |names| > 0 {
      assert names == [names[0]] + names[1..];
      WithoutCounts(names[1..], x, y);
    }
  }

  lemma {:induction false} WithoutConcat(a: seq<string>, b: seq<string>, x: string)
    ensures Without(a + b, x) == Without(a, x) + Without(b, x)
  {
    if |a| > 0 {
      assert (a + b)[1..] == a[1..] + b;
      WithoutConcat(a[1..], b, x);
    } else {
      assert a + b == b;
    }
  }

  lemma {:induction false} WithoutAbsent(names: seq<string>, x: string)
    requires x !in names
    ensures Without(names, x) == names
  {
    if |names| > 0 {
      WithoutAbsent(names[1..], x);
    }
  }

  lemma WithoutSingle(x: string)
    ensures Without([x], x) == []
  {
    assert [x][1..] == [];
  }

  /**
   * The new sibling order: `dragged` is taken out and put back just
   * before (top) or after (bottom) `target`, or at the end when `target`
   * is not among the remaining names.
   */
  function Reorder(names: seq<string>, dragged: string, target: string, top: bool): (r: seq<string>)
    ensures |r| == |Without(names, dragged)| + 1
  {
    var rest := Without(names, dragged);
    var i := ArrayIndexOf(rest, target);
    if i < 0 then rest + [dragged]
    else
      var at := if top then i else i + 1;
      rest[..at] + [dragged] + rest[at..]
  }

  /** Putting an absent name back anywhere gives it one occurrence and keeps the rest. */
  lemma InsertAbsent(rest: seq<string>, dragged: string, at: int)
    requires dragged !in rest && 0 <= at <= |rest|
    ensures multiset(rest[..at] + [dragged] + rest[at..])[dragged] == 1
    ensures Without(rest[..at] + [dragged] + rest[at..], dragged) == rest
  {
    var left, right := rest[..at], rest[at..];
    assert rest == left + right;
    CountOfInserted(left, dragged, right);
    WithoutInserted(left, dragged, right);
  }

  lemma CountOfInserted(left: seq<string>, x: string, right: seq<string>)
    requires x !in left && x !in right
    ensures multiset(left + [x] + right)[x] == 1
  {
    assert multiset(left + [x] + right) == multiset(left) + multiset{x} + multiset(right);
  }

  lemma WithoutInserted(left: seq<string>, x: string, right: seq<string>)
    requires x !in left && x !in right
    ensures Without(left + [x] + right, x) == left + right
  {
    var lx := left + [x];
    WithoutConcat(lx, right, x);
    WithoutConcat(left, [x], x);
    WithoutAbsent(left, x);
    WithoutAbsent(right, x);
    WithoutSingle(x);
    assert Without(lx, x) == left;
  }

  /**
   * After a reorder the dragged name occurs exactly once, and taking it
   * out again gives the other names in their old relative order.
   */
  lemma ReorderKeepsOthers(names: seq<string>, dragged: string, target: string, top: bool)
    ensures var r := Reorder(names, dragged, target, top);
            multiset(r)[dragged] == 1 && Without(r, dragged) == Without(names, dragged)
  {
    var rest := Without(names, dragged);
    var i := ArrayIndexOf(rest, target);
    var at := if i < 0 then |rest| else if top then i else i + 1;
    assert Reorder(names, dragged, target, top) == rest[..at] + [dragged] + rest[at..] by {
      if i < 0 {
        assert rest[..at] == rest && rest[at..] == [];
      }
    }
    InsertAbsent(rest, dragged, at);
  }

  /**
   * The dragged name lands next to the target: just before it on a top
   * drop, just after it on a bottom drop; without the target it lands last.
   */
  lemma ReorderPlacesNextToTarget(names: seq<string>, dragged: string, target: string, top: bool)
    requires dragged != target
    ensures var r := Reorder(names, dragged, target, top);
            if target in names then
              exists k :: 0 <= k < |r| - 1 && (if top then r[k] == dragged && r[k + 1] == target
                                               else r[k] == target && r[k + 1] == dragged)
            else r[|r| - 1] == dragged
  {
    var rest := Without(names, dragged);
    var i := ArrayIndexOf(rest, target);
    var r := Reorder(names, dragged, target, top);
    WithoutCounts(names, dragged, target);
    assert target in names <==> target in rest by {
      assert target in names <==> multiset(names)[target] > 0;
      assert target in rest <==> multiset(rest)[target] > 0;
    }
    if i >= 0 {
      var at := if top then i else i + 1;
      assert r == rest[..at] + [dragged] + rest[at..];
      InsertedAt(rest, dragged, at);
    } else {
      assert r == rest + [dragged];
    }
  }

  /** Where an inserted name and its neighbours end up. */
  lemma InsertedAt(rest: seq<string>, x: string, at: int)
    requires 0 <= at <= |rest|
    ensures var r := rest[..at] + [x] + rest[at..];
            && |r| == |rest| + 1
            && r[at] == x
            && (at < |rest| ==> r[at + 1] == rest[at])
            && (at > 0 ==> r[at - 1] == rest[at - 1])
  {
  }

  /** With distinct names one of which is dragged, a reorder is a permutation. */
  lemma ReorderPermutes(names: seq<string>, dragged: string, target: string, top: bool)
    requires multiset(names)[dragged] == 1
    ensures multiset(Reorder(names, dragged, target, top)) == multiset(names)
  {
    var r := Reorder(names, dragged, target, top);
    ReorderKeepsOthers(names, dragged, target, top);
    forall y
      ensures multiset(r)[y] == multiset(names)[y]
    {
      if y != dragged {
        WithoutCounts(r, dragged, y);
        WithoutCounts(names, dragged, y);
      }
    }
  }

  /** What a drop does. */
  datatype DropAction =
    | NoAction
    | SaveOrder(folder: string, order: seq<string>)   // `saveOrder(draggedParent, newOrder)`
    | RejectIntoSelf                                  // "Cannot move a folder into itself!"
    | MoveEntry(from: string, toFolder: string)       // `moveEntry(draggedPath, targetFolderPath)`

  /** The folder an entry dropped on `target` goes to: a folder itself, a file's parent. */
  function DestinationOf(target: Node, sep: char): string {
    if target.File? then ParentOf(target.path, sep) else target.path
  }

  /** The sibling reorder branch of the handler. */
  function ReorderDrop(dragged: string, target: Node, siblings: seq<Node>, zone: Zone): DropAction
  {
    var sep := SeparatorOf(target.path);
    SaveOrder(ParentOf(dragged, sep),
              Reorder(Names(siblings), NameOf(dragged, sep), target.name, zone == Top))
  }

  /** `nodes.map(n => n.name)` */
  function Names(nodes: seq<Node>): (r: seq<string>)
    ensures |r| == |nodes| && forall i :: 0 <= i < |nodes| ==> r[i] == nodes[i].name
  {
    if |nodes| == 0 then [] else [nodes[0].name] + Names(nodes[1..])
  }

  /** A reorder is what a top or bottom drop among siblings of one folder does. */
  predicate IsReorder(dragged: string, target: Node, zone: Zone) {
    var sep := SeparatorOf(target.path);
    ParentOf(dragged, sep) == ParentOf(target.path, sep) && zone != Middle
  }

  /**
   * A file is never marked in its middle, so dropping an entry on a file
   * of the same folder always reorders, wherever the pointer is.
   */
  lemma FileDropAmongSiblingsReorders(dragged: string, target: Node, offsetY: real, height: real)
    requires target.File?
    requires ParentOf(dragged, SeparatorOf(target.path)) == ParentOf(target.path, SeparatorOf(target.path))
    ensures IsReorder(dragged, target, ZoneOf(target, offsetY, height))
  {
  }

  /**
   * The handler as written: `dragged` is the dragged path (empty when the
   * drag carried none), `target` the entry dropped on and `siblings` the
   * list it was rendered in. The folder-into-itself guard is the plain
   * prefix test `node.path.startsWith(draggedPath)`, and only for folder
   * targets.
   */
  function DropAsWritten(dragged: string, target: Node, siblings: seq<Node>, zone: Zone): (a: DropAction)
    ensures a.NoAction? <==> dragged == "" || dragged == target.path
    ensures a.SaveOrder? <==> dragged != "" && dragged != target.path && IsReorder(dragged, target, zone)
    ensures a.RejectIntoSelf? <==> dragged != "" && dragged != target.path && !IsReorder(dragged, target, zone)
                                   && target.Folder? && StartsWith(target.path, dragged)
    ensures a.SaveOrder? ==> && a.folder == ParentOf(dragged, SeparatorOf(target.path))
                             && a.order == Reorder(Names(siblings), NameOf(dragged, SeparatorOf(target.path)),
                                                   target.name, zone == Top)
    ensures a.MoveEntry? ==> a.from == dragged && a.toFolder == DestinationOf(target, SeparatorOf(target.path))
  {
    if dragged == "" || dragged == target.path then NoAction
    else if IsReorder(dragged, target, zone) then ReorderDrop(dragged, target, siblings, zone)
    else if target.Folder? && StartsWith(target.path, dragged) then RejectIntoSelf
    else MoveEntry(dragged, DestinationOf(target, SeparatorOf(target.path)))
  }

  /**
   * Two ways the prefix guard goes wrong: dragging `/n/a` onto its
   * sibling folder `/n/ab` (middle of it) is refused although `/n/ab` is
   * not inside `/n/a`, and dragging `/n/a` onto the top half of the note `/n/a/x.md`
   * inside it asks for a move of `/n/a` into `/n/a` itself.
   */
  lemma DropGuardCounterexamples()
    ensures DropAsWritten("/n/a", Folder("ab", "/n/ab", []), [], Middle) == RejectIntoSelf
    ensures DropAsWritten("/n/a", File("x.md", "/n/a/x.md"), [], Top) == MoveEntry("/n/a", "/n/a")
  {
    PathsOfExample();
  }

  /** Parents and names of the paths in the examples. */
  lemma PathsOfExample()
    ensures ParentOf("/n/a", '/') == "/n" && NameOf("/n/a", '/') == "a"
    ensures ParentOf("/n/ab", '/') == "/n"
    ensures ParentOf("/n/a/x.md", '/') == "/n/a"
    ensures SeparatorOf("/n/ab") == '/' && SeparatorOf("/n/a/x.md") == '/'
  {
    assert "/n/a" == "/n" + ['/'] + "a";
    SplitOfJoin("/n", "a", '/');
    assert "/n/ab" == "/n" + ['/'] + "ab";
    SplitOfJoin("/n", "ab", '/');
    assert "/n/a/x.md" == "/n/a" + ['/'] + "x.md";
    SplitOfJoin("/n/a", "x.md", '/');
    SlashOnly("/n/ab");
    SlashOnly("/n/a/x.md");
  }

  /** A path written with `/` only uses `/` as its separator. */
  lemma SlashOnly(p: string)
    requires forall i :: 0 <= i < |p| ==> p[i] != '\\'
    ensures SeparatorOf(p) == '/'
  {
  }

  /** A folder joined with a plain name splits back into the two. */
  lemma SplitOfJoin(dir: string, name: string, sep: char)
    requires sep !in name
    ensures ParentOf(dir + [sep] + name, sep) == dir
    ensures NameOf(dir + [sep] + name, sep) == name
  {
    LastIndexOfBefore(dir, sep, name);
    var p := dir + [sep] + name;
    assert p[..|dir|] == dir;
    assert p[|dir| + 1..] == name;
  }

  /** The entry `dragged` itself, or anything under it. */
  predicate InsideOrSelf(folder: string, dragged: string, sep: char) {
    folder == dragged || StartsWith(folder, dragged + [sep])
  }

  /**
   * The handler with the guard it evidently intends: a move is refused
   * exactly when its destination folder is the dragged entry or lies
   * inside it, whatever the kind of target.
   */
  function Drop(dragged: string, target: Node, siblings: seq<Node>, zone: Zone): (a: DropAction)
    ensures a.NoAction? <==> dragged == "" || dragged == target.path
    ensures a.SaveOrder? <==> dragged != "" && dragged != target.path && IsReorder(dragged, target, zone)
    ensures a.RejectIntoSelf? <==> dragged != "" && dragged != target.path && !IsReorder(dragged, target, zone)
                                   && InsideOrSelf(DestinationOf(target, SeparatorOf(target.path)), dragged,
                                                   SeparatorOf(target.path))
    ensures a.SaveOrder? ==> && a.folder == ParentOf(dragged, SeparatorOf(target.path))
                             && a.order == Reorder(Names(siblings), NameOf(dragged, SeparatorOf(target.path)),
                                                   target.name, zone == Top)
    ensures a.MoveEntry? ==> a.from == dragged && a.toFolder == DestinationOf(target, SeparatorOf(target.path))
                             && !InsideOrSelf(a.toFolder, a.from, SeparatorOf(target.path))
  {
    var sep := SeparatorOf(target.path);
    if dragged == "" || dragged == target.path then NoAction
    else if IsReorder(dragged, target, zone) then ReorderDrop(dragged, target, siblings, zone)
    else if InsideOrSelf(DestinationOf(target, sep), dragged, sep) then RejectIntoSelf
    else MoveEntry(dragged, DestinationOf(target, sep))
  }

  /** The corrected guard lets the sibling through and refuses the move into itself. */
  lemma DropCorrectedExamples()
    ensures Drop("/n/a", Folder("ab", "/n/ab", []), [], Middle) == MoveEntry("/n/a", "/n/ab")
    ensures Drop("/n/a", File("x.md", "/n/a/x.md"), [], Top) == RejectIntoSelf
  {
    PathsOfExample();
    assert !StartsWith("/n/ab", "/n/a/") by {
      assert "/n/ab"[4] != "/n/a/"[4];
    }
    assert "/n/a/x.md"[..4] == "/n/a";
  }
}
