/**
  A parsed HTML document as a value: the tree that goquery navigates.

  A document is the forest of children of the parser's document node: every
  search the extractor makes looks at these nodes and their descendants, never
  at the document node itself. A node is addressed by its path, the child
  indices leading to it from the top of the forest, and document order is the
  preorder of the tree, which on paths is lexicographic order with an ancestor
  before its descendants (`Before`).
*/
module Dom {

  datatype Attribute = Attribute(key: string, val: string)

  datatype Node =
    | Element(tag: string, attrs: seq<Attribute>, children: seq<Node>)
    | Text(data: string)

  type Document = seq<Node>

  type Path = seq<nat>

  /** The children of a node; a text node has none. */
  function Kids(n: Node): seq<Node>
  {
    if n.Element? then n.children else []
  }

  /** The node with its subtree replaced by `ks` (a text node is left as it is). */
  function WithKids(n: Node, ks: seq<Node>): Node
  {
    if n.Element? then Element(n.tag, n.attrs, ks) else n
  }

  /** The node itself, without its subtree: its tag and attributes, or its text. */
  function Shallow(n: Node): Node
  {
    WithKids(n, [])
  }

  /** `p` leads from the top of `ns` to a node. */
  predicate ValidPath(ns: seq<Node>, p: Path)
    decreases |p|
  {
    |p| > 0 && p[0] < |ns| && (|p| == 1 || ValidPath(Kids(ns[p[0]]), p[1..]))
  }

  /** The node at path `p`. */
  function At(ns: seq<Node>, p: Path): Node
    requires ValidPath(ns, p)
    decreases |p|
  {
    if |p| == 1 then ns[p[0]] else At(Kids(ns[p[0]]), p[1..])
  }

  /** Document order: the node at `p` is visited strictly before the node at `q` in a preorder walk. */
  predicate Before(p: Path, q: Path)
    decreases |p|
  {
    |q| > 0 && (|p| == 0 || p[0] < q[0] || (p[0] == q[0] && Before(p[1..], q[1..])))
  }

  lemma {:induction false} BeforeIrreflexive(p: Path)
    ensures !Before(p, p)
    decreases |p|
  {
    if |p| > 0 {
      BeforeIrreflexive(p[1..]);
    }
  }

  lemma {:induction false} BeforeAsymmetric(p: Path, q: Path)
    ensures !(Before(p, q) && Before(q, p))
    decreases |p|
  {
    if |p| > 0 && |q| > 0 && p[0] == q[0] {
      BeforeAsymmetric(p[1..], q[1..]);
    }
  }

  lemma {:induction false} BeforeTransitive(p: Path, q: Path, r: Path)
    requires Before(p, q) && Before(q, r)
    ensures Before(p, r)
    decreases |p|
  {
    if |p| > 0 && p[0] == q[0] && q[0] == r[0] {
      BeforeTransitive(p[1..], q[1..], r[1..]);
    }
  }

  /** Any two distinct positions are ordered one way or the other. */
  lemma {:induction false} BeforeTotal(p: Path, q: Path)
    requires p != q
    ensures Before(p, q) || Before(q, p)
    decreases |p|
  {
    if |p| > 0 && |q| > 0 && p[0] == q[0] {
      assert p == [p[0]] + p[1..] && q == [q[0]] + q[1..];
      BeforeTotal(p[1..], q[1..]);
    }
  }

  /** An ancestor comes before each of its descendants. */
  lemma {:induction false} AncestorBefore(p: Path, q: Path)
    requires p < q
    ensures Before(p, q)
    decreases |p|
  {
    if |p| > 0 {
      assert p[1..] < q[1..];
      AncestorBefore(p[1..], q[1..]);
    }
  }

  /** `ns` with the subtree at `p` replaced by `x`. */
  function ReplaceAt(ns: seq<Node>, p: Path, x: Node): (r: seq<Node>)
    requires ValidPath(ns, p)
    ensures |r| == |ns|
    decreases |p|
  {
    ns[p[0] := if |p| == 1 then x else WithKids(ns[p[0]], ReplaceAt(Kids(ns[p[0]]), p[1..], x))]
  }

  /** After the replacement the path still leads somewhere, and there stands `x`. */
  lemma {:induction false} ReplaceAtTarget(ns: seq<Node>, p: Path, x: Node)
    requires ValidPath(ns, p)
    ensures ValidPath(ReplaceAt(ns, p, x), p)
    ensures At(ReplaceAt(ns, p, x), p) == x
    decreases |p|
  {
    if |p| > 1 {
      ReplaceAtTarget(Kids(ns[p[0]]), p[1..], x);
    }
  }

  /** A second replacement at the same place overrides the first. */
  lemma {:induction false} ReplaceAtTwice(ns: seq<Node>, p: Path, x: Node, y: Node)
    requires ValidPath(ns, p)
    ensures ValidPath(ReplaceAt(ns, p, x), p)
    ensures ReplaceAt(ReplaceAt(ns, p, x), p, y) == ReplaceAt(ns, p, y)
    decreases |p|
  {
    ReplaceAtTarget(ns, p, x);
    if |p| > 1 {
      ReplaceAtTwice(Kids(ns[p[0]]), p[1..], x, y);
    }
  }

  /**
    A replacement leaves the rest of the document alone: the positions outside
    the replaced subtree are the same as before, each ancestor of `p` keeps its
    tag and attributes, and every node that is neither an ancestor nor inside
    the subtree is unchanged with everything under it.
  */
  lemma {:induction false} ReplaceAtOutside(ns: seq<Node>, p: Path, x: Node, q: Path)
    requires ValidPath(ns, p)
    requires !(p <= q)
    ensures ValidPath(ReplaceAt(ns, p, x), q) <==> ValidPath(ns, q)
    ensures ValidPath(ns, q) ==> Shallow(At(ReplaceAt(ns, p, x), q)) == Shallow(At(ns, q))
    ensures ValidPath(ns, q) && !(q <= p) ==> At(ReplaceAt(ns, p, x), q) == At(ns, q)
    decreases |q|
  {
    var r := ReplaceAt(ns, p, x);
    if |q| > 0 && q[0] < |ns| && q[0] == p[0] {
      assert |p| > 1;
      var sub := ReplaceAt(Kids(ns[p[0]]), p[1..], x);
      assert ns[p[0]].Element?;
      assert r[q[0]] == WithKids(ns[p[0]], sub);
      assert Kids(r[q[0]]) == sub;
      if |q| > 1 {
        assert !(p[1..] <= q[1..]);
        assert q <= p <==> q[1..] <= p[1..];
        ReplaceAtOutside(Kids(ns[p[0]]), p[1..], x, q[1..]);
      }
    }
  }
}
