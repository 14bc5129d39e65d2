/**
  The parse-tree node of `Synt.h`: a grammar-symbol or token-kind name, a
  value (the token text for leaves), a source line, and ordered children.
  The source's heap-allocated `Node*` tree becomes an inductive datatype.
 */
module Ast {

  datatype Node = Node(name: string, value: string, line: int, children: seq<Node>)

  /** `Node(name)`: no value, line -1, no children. */
  function MakeNode(name: string): (n: Node)
    ensures n.name == name && n.value == "" && n.line == -1 && n.children == []
  {
    Node(name, "", -1, [])
  }

  /** `Node(name, value, line)` for a token leaf. */
  function Leaf(name: string, value: string, line: int): (n: Node)
    ensures n.name == name && n.value == value && n.line == line && n.children == []
  {
    Node(name, value, line, [])
  }

  /** `addChild`: appends `child` after the existing children. */
  function AddChild(n: Node, child: Node): (r: Node)
    ensures r.name == n.name && r.value == n.value && r.line == n.line
    ensures |r.children| == |n.children| + 1
    ensures r.children[|n.children|] == child
    ensures r.children[..|n.children|] == n.children
  {
    n.(children := n.children + [child])
  }

  /** A grammar node `Node(name)` together with the children added to it. */
  function Inner(name: string, children: seq<Node>): (n: Node)
    ensures n.name == name && n.value == "" && n.line == -1 && n.children == children
  {
    MakeNode(name).(children := children)
  }

  /** Building a grammar node child by child with `addChild` gives the same node. */
  lemma {:induction false} InnerByAddChild(name: string, children: seq<Node>)
    ensures Inner(name, children) == AddChildren(MakeNode(name), children)
    decreases |children|
  {
    if children != [] {
      var init := children[..|children| - 1];
      InnerByAddChild(name, init);
      assert init + [children[|children| - 1]] == children;
    }
  }

  /** Successive `addChild` calls, first child first. */
  function AddChildren(n: Node, children: seq<Node>): (r: Node)
    ensures r.name == n.name && r.value == n.value && r.line == n.line
    ensures r.children == n.children + children
    decreases |children|
  {
    if children == [] then n
    else AddChild(AddChildren(n, children[..|children| - 1]), children[|children| - 1])
  }
}
