/** `NodeTree`: a ConfigNode-like store of key/value pairs and named
    subtrees, both kept as lists that only grow by appending, with
    first-match lookup and an indented text serialiser. */
module Config {
  import opened Wrappers

  /** The index of the first entry whose key is `name`, if any (`List.Find`
      with `s => s.Key == name`). */
  function FirstMatch<V>(entries: seq<(string, V)>, name: string): (r: Option<nat>)
    ensures r.None? <==> forall i :: 0 <= i < |entries| ==> entries[i].0 != name
    ensures r.Some? ==> r.value < |entries| && entries[r.value].0 == name
    ensures r.Some? ==> forall j :: 0 <= j < r.value ==> entries[j].0 != name
  {
    if entries == [] then None
    else if entries[0].0 == name then Some(0)
    else match FirstMatch(entries[1..], name)
      case None => None
      case Some(i) => Some(i + 1)
  }

  /** Appending an entry never changes the first match of a key that was
      already present, and makes the new entry the match of a key that was not. */
  lemma {:induction false} FirstMatchAppend<V>(entries: seq<(string, V)>, key: string, value: V, name: string)
    ensures FirstMatch(entries + [(key, value)], name) ==
      if FirstMatch(entries, name).Some? then FirstMatch(entries, name)
      else if key == name then Some(|entries|)
      else None
  {
    var e := entries + [(key, value)];
    if FirstMatch(entries, name).None? {
      assert forall i :: 0 <= i < |entries| ==> e[i].0 != name;
      assert e[|entries|].0 == key;
    } else {
      var i := FirstMatch(entries, name).value;
      assert e[i].0 == name && forall j :: 0 <= j < i ==> e[j].0 != name;
    }
  }

  // ---- Serialisation ----

  /** The value a `NodeTree` denotes: its values and its subtrees, in order. */
  datatype Tree = Tree(values: seq<(string, string)>, nodes: seq<(string, Tree)>)

  /** Four spaces per level, built as the source builds it. */
  function Indent(level: nat): (r: string)
    ensures |r| == 4 * level
    ensures forall i :: 0 <= i < |r| ==> r[i] == ' '
  {
    if level == 0 then "" else Indent(level - 1) + "    "
  }

  function ValueLine(indent: string, key: string, value: string): string
  {
    indent + key + " = " + value + "\n"
  }

  function ValueLines(values: seq<(string, string)>, indent: string): string
  {
    if values == [] then ""
    else ValueLines(values[..|values| - 1], indent) + ValueLine(indent, values[|values| - 1].0, values[|values| - 1].1)
  }

  function Block(indent: string, name: string, body: string): string
  {
    indent + name + "\n" + indent + "{\n" + body + indent + "}\n"
  }

  /** `ToString(level)`: every value line, then one block per subtree with the
      subtree written one level deeper. */
  function Serialize(t: Tree, level: nat): string
    decreases t, 1
  {
    ValueLines(t.values, Indent(level)) + Blocks(t, level, |t.nodes|)
  }

  /** The blocks of the first `k` subtrees of `t`. */
  function Blocks(t: Tree, level: nat, k: nat): string
    requires k <= |t.nodes|
    decreases t, 0, k
  {
    if k == 0 then ""
    else Blocks(t, level, k - 1) + Block(Indent(level), t.nodes[k - 1].0, Serialize(t.nodes[k - 1].1, level + 1))
  }

  /** An empty tree serialises to the empty string. */
  lemma EmptySerializesEmpty(level: nat)
    ensures Serialize(Tree([], []), level) == ""
  {
  }

  /** One level deeper is four more spaces. */
  lemma IndentStep(level: nat)
    ensures Indent(level + 1) == Indent(level) + "    "
    ensures |Indent(level)| == 4 * level
  {
  }

  lemma {:induction false} BlocksPrefix(t: Tree, u: Tree, level: nat, k: nat)
    requires k <= |t.nodes| && k <= |u.nodes| && t.nodes[..k] == u.nodes[..k]
    ensures Blocks(t, level, k) == Blocks(u, level, k)
  {
    if k > 0 {
      assert t.nodes[k - 1] == t.nodes[..k][k - 1] == u.nodes[k - 1];
      assert t.nodes[..k - 1] == t.nodes[..k][..k - 1];
      assert u.nodes[..k - 1] == u.nodes[..k][..k - 1];
      BlocksPrefix(t, u, level, k - 1);
    }
  }

  /** `SetValue` puts its line at the end of the value lines, before every
      subtree block. */
  lemma SerializeSetValue(t: Tree, key: string, value: string, level: nat)
    ensures Serialize(Tree(t.values + [(key, value)], t.nodes), level) ==
      ValueLines(t.values, Indent(level)) + ValueLine(Indent(level), key, value) + Blocks(t, level, |t.nodes|)
  {
    var u := Tree(t.values + [(key, value)], t.nodes);
    assert u.values[..|u.values| - 1] == t.values;
    BlocksPrefix(t, u, level, |t.nodes|);
  }

  /** `SetNode` adds its block at the very end: the old text is a prefix. */
  lemma SerializeSetNode(t: Tree, name: string, child: Tree, level: nat)
    ensures Serialize(Tree(t.values, t.nodes + [(name, child)]), level) ==
      Serialize(t, level) + Block(Indent(level), name, Serialize(child, level + 1))
  {
    var u := Tree(t.values, t.nodes + [(name, child)]);
    assert u.nodes[..|t.nodes|] == t.nodes[..|t.nodes|];
    BlocksPrefix(t, u, level, |t.nodes|);
  }

  // ---- The mutable tree ----

  class NodeTree {
    var values: seq<(string, string)>
    var nodes: seq<(string, NodeTree)>

    constructor ()
      ensures values == [] && nodes == []
    {
      values := [];
      nodes := [];
    }

    /** `GetNode(name)`: the first subtree with that name, or null. */
    function GetNode(name: string): (r: Option<NodeTree>)
      reads this
      ensures r.None? <==> forall i :: 0 <= i < |nodes| ==> nodes[i].0 != name
      ensures r.Some? ==> exists i :: (0 <= i < |nodes| && nodes[i] == (name, r.value)
        && forall j :: 0 <= j < i ==> nodes[j].0 != name)
    {
      match FirstMatch(nodes, name)
      case None => None
      case Some(i) => Some(nodes[i].1)
    }

    /** `SetNode(name, node)`: append, even when the name is taken. */
    method SetNode(name: string, node: NodeTree)
      modifies this
      ensures nodes == old(nodes) + [(name, node)] && values == old(values)
    {
      nodes := nodes + [(name, node)];
    }

    /** `AddNode(name)`: append a new empty subtree, then return
        `GetNode(name)` — the new subtree only when the name was not taken. */
    method AddNode(name: string) returns (r: NodeTree)
      modifies this
      ensures values == old(values) && |nodes| == |old(nodes)| + 1
      ensures nodes[..|old(nodes)|] == old(nodes) && nodes[|old(nodes)|].0 == name
      ensures fresh(nodes[|old(nodes)|].1)
      ensures nodes[|old(nodes)|].1.values == [] && nodes[|old(nodes)|].1.nodes == []
      ensures old(GetNode(name)).Some? ==> r == old(GetNode(name)).value
      ensures old(GetNode(name)).None? ==> r == nodes[|old(nodes)|].1
    {
      var n := new NodeTree();
      SetNode(name, n);
      FirstMatchAppend(old(nodes), name, n, name);
      r := GetNode(name).value;
    }

    /** `GetValue(name)`: the value of the first entry with that key, or null. */
    function GetValue(name: string): (r: Option<string>)
      reads this
      ensures r.None? <==> forall i :: 0 <= i < |values| ==> values[i].0 != name
      ensures r.Some? ==> exists i :: (0 <= i < |values| && values[i] == (name, r.value)
        && forall j :: 0 <= j < i ==> values[j].0 != name)
    {
      match FirstMatch(values, name)
      case None => None
      case Some(i) => Some(values[i].1)
    }

    /** `SetValue(name, value)`: append, even when the key is taken. */
    method SetValue(name: string, value: string)
      modifies this
      ensures values == old(values) + [(name, value)] && nodes == old(nodes)
      ensures old(GetValue(name)).Some? ==> GetValue(name) == old(GetValue(name))
      ensures old(GetValue(name)).None? ==> GetValue(name) == Some(value)
    {
      FirstMatchAppend(values, name, value, name);
      values := values + [(name, value)];
    }

    /** `ToString(level)`: builds the indent and the text with loops and
        recurses into the subtrees. `depth` bounds the nesting: a tree that
        contains itself has no finite depth, and the source overflows its
        stack on it. */
    method ToString(level: nat, ghost depth: nat, ghost t: Tree) returns (s: string)
      requires Snapshot(this, depth) == Some(t)
      ensures s == Serialize(t, level)
      decreases depth, 1
    {
      var indent := MakeIndent(level);
      s := WriteValues(values, indent);
      var blocks := WriteNodes(nodes, level, indent, depth, t);
      s := s + blocks;
    }
  }

  /** The subtree loop of `ToString`: one block per subtree, each written
      one level deeper. */
  method WriteNodes(nodes: seq<(string, NodeTree)>, level: nat, indent: string, ghost depth: nat, ghost t: Tree)
    returns (s: string)
    requires depth > 0 && indent == Indent(level)
    requires SnapshotNodes(nodes, depth) == Some(t.nodes)
    ensures s == Blocks(t, level, |t.nodes|)
    decreases depth, 0
  {
    s := "";
    for i := 0 to |nodes|
      invariant s == Blocks(t, level, i)
    {
      SnapshotNodesAt(nodes, depth, i);
      var (name, node) := nodes[i];
      ghost var child := Snapshot(node, depth - 1).value;
      assert t.nodes[i] == (name, child);
      var sub := node.ToString(level + 1, depth - 1, child);
      s := s + Block(indent, name, sub);
    }
  }

  /** The indent loop of `ToString`. */
  method MakeIndent(level: nat) returns (indent: string)
    ensures indent == Indent(level)
  {
    indent := "";
    for i := 0 to level
      invariant indent == Indent(i)
    {
      indent := indent + "    ";
    }
  }

  /** The value loop of `ToString`. */
  method WriteValues(values: seq<(string, string)>, indent: string) returns (s: string)
    ensures s == ValueLines(values, indent)
  {
    s := "";
    for i := 0 to |values|
      invariant s == ValueLines(values[..i], indent)
    {
      assert values[..i + 1][..i] == values[..i];
      s := s + ValueLine(indent, values[i].0, values[i].1);
    }
    assert values[..|values|] == values;
  }

  /** The tree value reachable from `t` within `depth` levels; `None` when
      the nesting is deeper (in particular when `t` contains itself). */
  ghost function Snapshot(t: NodeTree, depth: nat): (r: Option<Tree>)
    reads *
    ensures r.Some? ==> r.value.values == t.values && |r.value.nodes| == |t.nodes|
    decreases depth, 1
  {
    if depth == 0 then None
    else match SnapshotNodes(t.nodes, depth)
      case None => None
      case Some(ns) => Some(Tree(t.values, ns))
  }

  ghost function SnapshotNodes(nodes: seq<(string, NodeTree)>, depth: nat): (r: Option<seq<(string, Tree)>>)
    reads *
    requires depth > 0
    ensures r.Some? ==> |r.value| == |nodes|
    decreases depth, 0, |nodes|
  {
    if nodes == [] then Some([])
    else
      match (SnapshotNodes(nodes[..|nodes| - 1], depth), Snapshot(nodes[|nodes| - 1].1, depth - 1))
      case (Some(ns), Some(c)) => Some(ns + [(nodes[|nodes| - 1].0, c)])
      case _ => None
  }

  lemma {:induction false} SnapshotNodesAt(nodes: seq<(string, NodeTree)>, depth: nat, i: nat)
    requires depth > 0 && SnapshotNodes(nodes, depth).Some? && i < |nodes|
    ensures |SnapshotNodes(nodes, depth).value| == |nodes|
    ensures Snapshot(nodes[i].1, depth - 1).Some?
    ensures SnapshotNodes(nodes, depth).value[i] == (nodes[i].0, Snapshot(nodes[i].1, depth - 1).value)
    decreases |nodes|
  {
    var init := nodes[..|nodes| - 1];
    if i < |nodes| - 1 {
      SnapshotNodesAt(init, depth, i);
      assert init[i] == nodes[i];
    } else if |init| > 0 {
      SnapshotNodesAt(init, depth, 0);
    }
  }
}
