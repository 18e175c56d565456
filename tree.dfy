/** The induced tree. A node carries a label and its children in order.

    The label is an attribute name at a split, an attribute value on the
    node that stands for one branch of a split, or a target value at a leaf.
    The parent back-reference of the source is written once and never read,
    so it is not part of the model.
 */
module Tree {

  datatype Node = Node(name: string, children: seq<Node>)

  /** `nb_children(node)`: the number of nodes in the subtree rooted at
      `node`, itself included. */
  function Size(node: Node): (n: nat)
    ensures n >= 1 + |node.children|
    decreases node
  {
    1 + SumSizes(node.children)
  }

  /** `sum(nb_children(child) for child in nodes)`. */
  function SumSizes(nodes: seq<Node>): (n: nat)
    ensures n >= |nodes|
    decreases nodes
  {
    if nodes == [] then 0 else Size(nodes[0]) + SumSizes(nodes[1..])
  }

  /** Sizes add up over a concatenation. */
  lemma {:induction false} SumSizesAppend(a: seq<Node>, b: seq<Node>)
    ensures SumSizes(a + b) == SumSizes(a) + SumSizes(b)
  {
    if a != [] {
      assert (a + b)[1..] == a[1..] + b;
      SumSizesAppend(a[1..], b);
    } else {
      assert a + b == b;
    }
  }

  /** A child's subtree is strictly smaller than its parent's: the measure
      on which the recursion of `nb_children` and `print_tree` shrinks. */
  lemma ChildIsSmaller(node: Node, c: Node)
    requires c in node.children
    ensures Size(c) < Size(node)
  {
    SumSizesAtLeast(node.children, c);
  }

  /** Each subtree counts towards the sum of sizes. */
  lemma {:induction false} SumSizesAtLeast(nodes: seq<Node>, c: Node)
    requires c in nodes
    ensures Size(c) <= SumSizes(nodes)
  {
    if nodes[0] != c {
      SumSizesAtLeast(nodes[1..], c);
    }
  }

  /** Every path from `t` down to a leaf has at most `h` nodes. */
  ghost predicate HeightAtMost(t: Node, h: int)
    decreases t
  {
    h >= 1 && forall c | c in t.children :: HeightAtMost(c, h - 1)
  }

  /** A height bound stays a bound when it is raised. */
  lemma {:induction false} HeightAtMostMono(t: Node, h: int, h': int)
    requires HeightAtMost(t, h) && h <= h'
    ensures HeightAtMost(t, h')
    decreases t
  {
    forall c | c in t.children
      ensures HeightAtMost(c, h' - 1)
    {
      HeightAtMostMono(c, h - 1, h' - 1);
    }
  }
}
