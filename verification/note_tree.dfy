/**
 * The note tree the main process returns, the search for the rule
 * document in it (`findAhk`), the path the sidebar records for the rule
 * document while rendering (`renderTree`), and the reload of the rule
 * store from that document (`loadAhkHotstrings`).
 */
module NoteTree {
  import opened Wrappers
  import opened RuleStore
  import JsString
  import HotstringParser

  /** A listed entry: a note or rule file, or a folder with its listed children. */
  datatype Node =
    | File(name: string, path: string)
    | Folder(name: string, path: string, children: seq<Node>)

  /** The name of the rule document. */
  const HotkeysName := "MyHotkeys.ahk"

  /** Every node of the forest, depth first, each node before its children. */
  function Preorder(nodes: seq<Node>): seq<Node>
    decreases nodes
  {
    if |nodes| == 0 then []
    else
      var kids := if nodes[0].Folder? then Preorder(nodes[0].children) else [];
      [nodes[0]] + kids + Preorder(nodes[1..])
  }

  /** The index of the first node of `ns` named `name`, scanning left to right. */
  function FirstNamed(ns: seq<Node>, name: string): (r: Option<nat>)
    ensures r.Some? ==> r.value < |ns| && ns[r.value].name == name
                        && forall j :: 0 <= j < r.value ==> ns[j].name != name
    ensures r.None? ==> forall j :: 0 <= j < |ns| ==> ns[j].name != name
  {
    if |ns| == 0 then None
    else if ns[0].name == name then Some(0)
    else match FirstNamed(ns[1..], name)
      case None => None
      case Some(i) => Some(i + 1)
  }

  /** The first node of `ns` named `name`, if any. */
  function FirstNodeNamed(ns: seq<Node>, name: string): Option<Node>
  {
    match FirstNamed(ns, name)
    case None => None
    case Some(i) => Some(ns[i])
  }

  /**
   * `findAhk(nodes)`: each node is examined before its children, and the
   * children of a node before its later siblings.
   */
  function FindAhk(nodes: seq<Node>): (r: Option<Node>)
    ensures r.Some? ==> r.value.name == HotkeysName
    decreases nodes
  {
    if |nodes| == 0 then None
    else if nodes[0].name == HotkeysName then Some(nodes[0])
    else
      var inside := if nodes[0].Folder? then FindAhk(nodes[0].children) else None;
      if inside.Some? then inside else FindAhk(nodes[1..])
  }

  /** The first node named `name` in `a + b` is `a`'s, when `a` has one. */
  lemma {:induction false} FirstNodeNamedConcat(a: seq<Node>, b: seq<Node>, name: string)
    ensures FirstNodeNamed(a + b, name)
            == if FirstNodeNamed(a, name).Some? then FirstNodeNamed(a, name) else FirstNodeNamed(b, name)
  {
    if |a| > 0 {
      assert (a + b)[1..] == a[1..] + b;
      FirstNodeNamedConcat(a[1..], b, name);
    } else {
      assert a + b == b;
    }
  }

  lemma FirstNodeNamedCons(n: Node, rest: seq<Node>, name: string)
    ensures FirstNodeNamed([n] + rest, name)
            == if n.name == name then Some(n) else FirstNodeNamed(rest, name)
  {
    assert ([n] + rest)[1..] == rest;
  }

  /**
   * `findAhk` returns the first node named `MyHotkeys.ahk` in depth-first
   * pre-order, and null exactly when there is none.
   */
  lemma {:induction false} FindAhkIsFirstInPreorder(nodes: seq<Node>)
    ensures FindAhk(nodes) == FirstNodeNamed(Preorder(nodes), HotkeysName)
    decreases nodes
  {
    if |nodes| > 0 {
      var n := nodes[0];
      var kids := if n.Folder? then Preorder(n.children) else [];
      var rest := Preorder(nodes[1..]);
      assert Preorder(nodes) == [n] + (kids + rest);
      FirstNodeNamedCons(n, kids + rest, HotkeysName);
      if n.name != HotkeysName {
        FirstNodeNamedConcat(kids, rest, HotkeysName);
        if n.Folder? {
          FindAhkIsFirstInPreorder(n.children);
        }
        FindAhkIsFirstInPreorder(nodes[1..]);
      }
    }
  }

  /**
   * `loadAhkHotstrings()`: without a rule document the store is left as
   * it is; otherwise it is rebuilt from the document's text, which
   * `read` stands for.
   */
  function LoadHotstrings(current: Store, tree: seq<Node>, read: string -> string): (s: Store)
    ensures FindAhk(tree).None? ==> s == current
    ensures FindAhk(tree).Some? ==> s == HotstringParser.Parse(read(FindAhk(tree).value.path))
  {
    match FindAhk(tree)
    case None => current
    case Some(node) => HotstringParser.Parse(read(node.path))
  }

  /**
   * A reload keeps no trigger of the store it replaces: after it, a
   * trigger has an entry exactly when some line of the rule document
   * defines it.
   */
  lemma ReloadForgetsOldRules(current: Store, tree: seq<Node>, read: string -> string, t: string)
    requires FindAhk(tree).Some?
    ensures var lines := JsString.Split(read(FindAhk(tree).value.path), '\n');
            Lookup(LoadHotstrings(current, tree, read), t).Some?
            <==> t != ProtoKey && exists i :: 0 <= i < |lines| && HotstringParser.DefinesTrigger(lines[i], t)
  {
    var lines := JsString.Split(read(FindAhk(tree).value.path), '\n');
    var s := HotstringParser.ParseLines(lines);
    assert LoadHotstrings(current, tree, read) == s;
    HotstringParser.ParseLinesMissing(lines, t);
    var defined := exists i :: 0 <= i < |lines| && HotstringParser.DefinesTrigger(lines[i], t);
    var none := forall i :: 0 <= i < |lines| ==> !HotstringParser.DefinesTrigger(lines[i], t);
    assert defined <==> !none;
    assert Lookup(s, t).None? <==> t == ProtoKey || none;
    assert Lookup(s, t).Some? <==> t != ProtoKey && defined;
    assert Lookup(LoadHotstrings(current, tree, read), t).Some? <==> t != ProtoKey && defined;
    assert JsString.Split(read(FindAhk(tree).value.path), '\n') == lines;
  }

  /**
   * The nodes `renderTree` visits, in order: a node named
   * `MyHotkeys.ahk` is visited (it only records its path) and its subtree
   * is not; a folder's children follow it.
   */
  function Visited(nodes: seq<Node>): seq<Node>
    decreases nodes
  {
    if |nodes| == 0 then []
    else
      var kids := if nodes[0].name != HotkeysName && nodes[0].Folder? then Visited(nodes[0].children) else [];
      [nodes[0]] + kids + Visited(nodes[1..])
  }

  /**
   * The nodes `renderTree` builds a sidebar item for, in order: a node
   * named `MyHotkeys.ahk` gets none, and neither does its subtree.
   */
  function Shown(nodes: seq<Node>): (r: seq<Node>)
    ensures forall i :: 0 <= i < |r| ==> r[i].name != HotkeysName
    decreases nodes
  {
    if |nodes| == 0 then []
    else if nodes[0].name == HotkeysName then Shown(nodes[1..])
    else
      var kids := if nodes[0].Folder? then Shown(nodes[0].children) else [];
      [nodes[0]] + kids + Shown(nodes[1..])
  }

  /** `ns` without the nodes named `MyHotkeys.ahk`, in order. */
  function WithoutRuleDocuments(ns: seq<Node>): seq<Node>
  {
    if |ns| == 0 then []
    else (if ns[0].name == HotkeysName then [] else [ns[0]]) + WithoutRuleDocuments(ns[1..])
  }

  lemma {:induction false} WithoutRuleDocumentsConcat(a: seq<Node>, b: seq<Node>)
    ensures WithoutRuleDocuments(a + b) == WithoutRuleDocuments(a) + WithoutRuleDocuments(b)
  {
    if |a| > 0 {
      assert (a + b)[1..] == a[1..] + b;
      WithoutRuleDocumentsConcat(a[1..], b);
    } else {
      assert a + b == b;
    }
  }

  /**
   * Every visited node gets a sidebar item except the rule documents:
   * those are visited only to record their path.
   */
  lemma {:induction false} ShownIsVisitedWithoutRuleDocuments(nodes: seq<Node>)
    ensures Shown(nodes) == WithoutRuleDocuments(Visited(nodes))
    decreases nodes
  {
    if |nodes| > 0 {
      var n := nodes[0];
      var kids := if n.name != HotkeysName && n.Folder? then Visited(n.children) else [];
      var rest := Visited(nodes[1..]);
      assert Visited(nodes) == [n] + kids + rest;
      WithoutRuleDocumentsConcat([n] + kids, rest);
      WithoutRuleDocumentsConcat([n], kids);
      assert [n][1..] == [];
      if n.name != HotkeysName && n.Folder? {
        ShownIsVisitedWithoutRuleDocuments(n.children);
      }
      ShownIsVisitedWithoutRuleDocuments(nodes[1..]);
    }
  }

  /** The path of the last node of `ns` named `MyHotkeys.ahk`, or `prev` when none is. */
  function LastHotkeysPath(ns: seq<Node>, prev: Option<string>): Option<string>
  {
    if |ns| == 0 then prev
    else LastHotkeysPath(ns[1..], if ns[0].name == HotkeysName then Some(ns[0].path) else prev)
  }

  /**
   * The `state.ahkFilePath` that `renderTree(nodes)` leaves behind,
   * starting from `prev`: every node named `MyHotkeys.ahk` it meets
   * overwrites it.
   */
  function RenderTree(prev: Option<string>, nodes: seq<Node>): (r: Option<string>)
    ensures r == prev || exists n :: n in Visited(nodes) && n.name == HotkeysName && r == Some(n.path)
    decreases nodes
  {
    if |nodes| == 0 then prev
    else if nodes[0].name == HotkeysName then
      var r := RenderTree(Some(nodes[0].path), nodes[1..]);
      assert Visited(nodes) == [nodes[0]] + Visited(nodes[1..]);
      r
    else
      var kids := if nodes[0].Folder? then Visited(nodes[0].children) else [];
      var afterKids := if nodes[0].Folder? then RenderTree(prev, nodes[0].children) else prev;
      var r := RenderTree(afterKids, nodes[1..]);
      assert Visited(nodes) == [nodes[0]] + kids + Visited(nodes[1..]);
      r
  }

  lemma {:induction false} LastHotkeysPathConcat(a: seq<Node>, b: seq<Node>, prev: Option<string>)
    ensures LastHotkeysPath(a + b, prev) == LastHotkeysPath(b, LastHotkeysPath(a, prev))
  {
    if |a| > 0 {
      assert (a + b)[1..] == a[1..] + b;
      LastHotkeysPathConcat(a[1..], b, if a[0].name == HotkeysName then Some(a[0].path) else prev);
    } else {
      assert a + b == b;
    }
  }

  /** `renderTree` records the last `MyHotkeys.ahk` it visits. */
  lemma {:induction false} RenderTreeRecordsLast(prev: Option<string>, nodes: seq<Node>)
    ensures RenderTree(prev, nodes) == LastHotkeysPath(Visited(nodes), prev)
    decreases nodes
  {
    if |nodes| > 0 {
      var n := nodes[0];
      var kids := if n.name != HotkeysName && n.Folder? then Visited(n.children) else [];
      var rest := Visited(nodes[1..]);
      assert Visited(nodes) == [n] + kids + rest;
      LastHotkeysPathConcat([n] + kids, rest, prev);
      LastHotkeysPathConcat([n], kids, prev);
      var afterN := if n.name == HotkeysName then Some(n.path) else prev;
      assert LastHotkeysPath([n], prev) == afterN;
      if n.name != HotkeysName && n.Folder? {
        RenderTreeRecordsLast(prev, n.children);
      }
      RenderTreeRecordsLast(LastHotkeysPath([n] + kids, prev), nodes[1..]);
    }
  }

  /**
   * Two rule documents, one in a folder listed first and one at the root:
   * `findAhk` picks the nested one, `renderTree` records the root one,
   * so the toolbar button opens a document the engine does not read.
   */
  lemma RenderTreeDisagreesWithFindAhk()
    ensures var tree := [Folder("a", "/n/a", [File(HotkeysName, "/n/a/MyHotkeys.ahk")]),
                         File(HotkeysName, "/n/MyHotkeys.ahk")];
            && FindAhk(tree) == Some(File(HotkeysName, "/n/a/MyHotkeys.ahk"))
            && RenderTree(None, tree) == Some("/n/MyHotkeys.ahk")
  {
    var inner := [File(HotkeysName, "/n/a/MyHotkeys.ahk")];
    var tree := [Folder("a", "/n/a", inner), File(HotkeysName, "/n/MyHotkeys.ahk")];
    assert "a" != HotkeysName;
    assert tree[1..] == [File(HotkeysName, "/n/MyHotkeys.ahk")];
    assert tree[1..][1..] == [];
    assert inner[1..] == [];
  }

  /**
   * The recording `renderTree` evidently intends: the first
   * `MyHotkeys.ahk` it meets, so that the document the toolbar opens is
   * the one the engine reads; `prev` survives when there is none.
   */
  function RenderTreeFirst(prev: Option<string>, nodes: seq<Node>): (r: Option<string>)
    decreases nodes
  {
    if |nodes| == 0 then prev
    else if nodes[0].name == HotkeysName then Some(nodes[0].path)
    else
      var inside := if nodes[0].Folder? then RenderTreeFirst(None, nodes[0].children) else None;
      if inside.Some? then inside else RenderTreeFirst(prev, nodes[1..])
  }

  /** The corrected recording names exactly the document `findAhk` finds. */
  lemma {:induction false} RenderTreeFirstAgreesWithFindAhk(prev: Option<string>, nodes: seq<Node>)
    ensures RenderTreeFirst(prev, nodes)
            == if FindAhk(nodes).Some? then Some(FindAhk(nodes).value.path) else prev
    decreases nodes
  {
    if |nodes| > 0 && nodes[0].name != HotkeysName {
      if nodes[0].Folder? {
        RenderTreeFirstAgreesWithFindAhk(None, nodes[0].children);
      }
      RenderTreeFirstAgreesWithFindAhk(prev, nodes[1..]);
    }
  }
}
