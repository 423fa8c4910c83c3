/**
  Noise pruning: `contentNode.Find("script, style, nav, header, footer, aside").Remove()`.

  Find collects every descendant of the chosen node with a noise tag and Remove
  detaches each from its parent; a noise element inside another one goes with
  its ancestor's subtree. The net effect is the recursive filter `PruneSeq` on
  the chosen node's children (`PruneNode`), written into the document at the
  chosen position by `PruneAt`.
*/
module Noise {
  import opened Dom

  /** The element kinds that never belong to an article body. */
  const NoiseTags: set<string> := {"script", "style", "nav", "header", "footer", "aside"}

  predicate IsNoise(n: Node)
  {
    n.Element? && n.tag in NoiseTags
  }

  /** The forest with every noise element removed together with its subtree, at any depth. */
  function PruneSeq(ns: seq<Node>): seq<Node>
    decreases ns, 1
  {
    if ns == [] then []
    else (if IsNoise(ns[0]) then [] else [PruneNode(ns[0])]) + PruneSeq(ns[1..])
  }

  /** The node itself kept, its descendants pruned. */
  function PruneNode(n: Node): Node
    decreases n, 0
  {
    if n.Element? then Element(n.tag, n.attrs, PruneSeq(n.children)) else n
  }

  /** The document after pruning below the node at `p`, as the in-place removal leaves it. */
  function PruneAt(doc: Document, p: Path): Document
    requires ValidPath(doc, p)
  {
    ReplaceAt(doc, p, PruneNode(At(doc, p)))
  }

  lemma PruneNodeShape(n: Node)
    ensures Shallow(PruneNode(n)) == Shallow(n)
    ensures Kids(PruneNode(n)) == PruneSeq(Kids(n))
    ensures IsNoise(PruneNode(n)) == IsNoise(n)
  {
  }

  lemma {:induction false} PruneSeqAppend(a: seq<Node>, b: seq<Node>)
    ensures PruneSeq(a + b) == PruneSeq(a) + PruneSeq(b)
    decreases |a|
  {
    if a != [] {
      assert (a + b)[0] == a[0] && (a + b)[1..] == a[1..] + b;
      PruneSeqAppend(a[1..], b);
    } else {
      assert a + b == b;
    }
  }

  /** The position among its siblings that `ns[i]` has after pruning: the survivors before it. */
  function NewIndex(ns: seq<Node>, i: nat): nat
    requires i <= |ns|
  {
    |PruneSeq(ns[..i])|
  }

  /** A surviving sibling reappears, pruned, at its new index. */
  lemma PruneSeqAt(ns: seq<Node>, i: nat)
    requires i < |ns| && !IsNoise(ns[i])
    ensures NewIndex(ns, i) < |PruneSeq(ns)|
    ensures PruneSeq(ns)[NewIndex(ns, i)] == PruneNode(ns[i])
  {
    assert ns == ns[..i] + ([ns[i]] + ns[i + 1..]);
    PruneSeqAppend(ns[..i], [ns[i]] + ns[i + 1..]);
    PruneSeqAppend([ns[i]], ns[i + 1..]);
    assert PruneSeq([ns[i]]) == [PruneNode(ns[i])];
  }

  /** Surviving siblings keep their relative order. */
  lemma NewIndexMonotone(ns: seq<Node>, a: nat, b: nat)
    requires a < b <= |ns| && !IsNoise(ns[a])
    ensures NewIndex(ns, a) < NewIndex(ns, b)
  {
    assert ns[..b] == ns[..a] + ([ns[a]] + ns[a + 1..b]);
    PruneSeqAppend(ns[..a], [ns[a]] + ns[a + 1..b]);
    PruneSeqAppend([ns[a]], ns[a + 1..b]);
    assert PruneSeq([ns[a]]) == [PruneNode(ns[a])];
  }

  /** Every node of the pruned forest is some surviving original sibling. */
  lemma {:induction false} NewIndexOnto(ns: seq<Node>, j: nat)
    requires j < |PruneSeq(ns)|
    ensures exists i: nat :: i < |ns| && !IsNoise(ns[i]) && NewIndex(ns, i) == j
    decreases |ns|
  {
    var head := if IsNoise(ns[0]) then [] else [PruneNode(ns[0])];
    assert PruneSeq(ns) == head + PruneSeq(ns[1..]);
    if !IsNoise(ns[0]) && j == 0 {
      assert ns[..0] == [];
      assert NewIndex(ns, 0) == 0;
    } else {
      NewIndexOnto(ns[1..], j - |head|);
      var i': nat :| i' < |ns[1..]| && !IsNoise(ns[1..][i']) && NewIndex(ns[1..], i') == j - |head|;
      assert ns[..i' + 1] == [ns[0]] + ns[1..][..i'];
      PruneSeqAppend([ns[0]], ns[1..][..i']);
      assert PruneSeq([ns[0]]) == head;
      assert NewIndex(ns, i' + 1) == j;
    }
  }

  /** No node on the way to `p`, the node at `p` included, is a noise element. */
  ghost predicate Clean(ns: seq<Node>, p: Path)
    requires ValidPath(ns, p)
    decreases |p|
  {
    !IsNoise(ns[p[0]]) && (|p| == 1 || Clean(Kids(ns[p[0]]), p[1..]))
  }

  /** Where the node at `p` stands after pruning. */
  function Keep(ns: seq<Node>, p: Path): (r: Path)
    requires ValidPath(ns, p)
    ensures |r| == |p|
    decreases |p|
  {
    [NewIndex(ns, p[0])] + (if |p| == 1 then [] else Keep(Kids(ns[p[0]]), p[1..]))
  }

  /** A node with no noise element above it or at it survives, pruned, at its new position. */
  lemma {:induction false} KeepSurvives(ns: seq<Node>, p: Path)
    requires ValidPath(ns, p) && Clean(ns, p)
    ensures ValidPath(PruneSeq(ns), Keep(ns, p))
    ensures At(PruneSeq(ns), Keep(ns, p)) == PruneNode(At(ns, p))
    decreases |p|
  {
    var k := Keep(ns, p);
    PruneSeqAt(ns, p[0]);
    PruneNodeShape(ns[p[0]]);
    if |p| > 1 {
      KeepSurvives(Kids(ns[p[0]]), p[1..]);
      assert k[1..] == Keep(Kids(ns[p[0]]), p[1..]);
    }
  }

  /** Every node of the pruned forest is the survivor of an original node with no noise above it or at it. */
  lemma {:induction false} KeepOnto(ns: seq<Node>, q: Path)
    requires ValidPath(PruneSeq(ns), q)
    ensures exists p :: ValidPath(ns, p) && Clean(ns, p) && Keep(ns, p) == q
    decreases |q|
  {
    NewIndexOnto(ns, q[0]);
    var i: nat :| i < |ns| && !IsNoise(ns[i]) && NewIndex(ns, i) == q[0];
    PruneSeqAt(ns, i);
    PruneNodeShape(ns[i]);
    if |q| == 1 {
      assert ValidPath(ns, [i]) && Clean(ns, [i]) && Keep(ns, [i]) == q;
    } else {
      KeepOnto(Kids(ns[i]), q[1..]);
      var p' :| ValidPath(Kids(ns[i]), p') && Clean(Kids(ns[i]), p') && Keep(Kids(ns[i]), p') == q[1..];
      KeepCons(ns, i, p');
      assert [q[0]] + q[1..] == q;
    }
  }

  /** Paths through a clean child: validity, cleanliness and the new position, one level down. */
  lemma KeepCons(ns: seq<Node>, i: nat, p': Path)
    requires i < |ns| && !IsNoise(ns[i])
    requires ValidPath(Kids(ns[i]), p') && Clean(Kids(ns[i]), p')
    ensures ValidPath(ns, [i] + p') && Clean(ns, [i] + p')
    ensures Keep(ns, [i] + p') == [NewIndex(ns, i)] + Keep(Kids(ns[i]), p')
  {
    var p := [i] + p';
    assert p[0] == i && p[1..] == p';
  }

  /** Pruning keeps the document order of the nodes that survive it. */
  lemma {:induction false} KeepOrder(ns: seq<Node>, p: Path, q: Path)
    requires ValidPath(ns, p) && Clean(ns, p)
    requires ValidPath(ns, q) && Clean(ns, q)
    requires Before(p, q)
    ensures Before(Keep(ns, p), Keep(ns, q))
    decreases |p|
  {
    var kp, kq := Keep(ns, p), Keep(ns, q);
    if p[0] < q[0] {
      NewIndexMonotone(ns, p[0], q[0]);
    } else if |p| > 1 {
      assert kp[1..] == Keep(Kids(ns[p[0]]), p[1..]);
      assert kq[1..] == Keep(Kids(ns[q[0]]), q[1..]);
      KeepOrder(Kids(ns[p[0]]), p[1..], q[1..]);
    }
  }

  lemma {:induction false} CleanNotNoise(ns: seq<Node>, p: Path)
    requires ValidPath(ns, p) && Clean(ns, p)
    ensures !IsNoise(At(ns, p))
    decreases |p|
  {
    if |p| > 1 {
      CleanNotNoise(Kids(ns[p[0]]), p[1..]);
    }
  }

  /** No noise element is left anywhere in a pruned forest. */
  lemma NoNoiseLeft(ns: seq<Node>)
    ensures forall q :: ValidPath(PruneSeq(ns), q) ==> !IsNoise(At(PruneSeq(ns), q))
  {
    forall q | ValidPath(PruneSeq(ns), q)
      ensures !IsNoise(At(PruneSeq(ns), q))
    {
      KeepOnto(ns, q);
      var p :| ValidPath(ns, p) && Clean(ns, p) && Keep(ns, p) == q;
      KeepSurvives(ns, p);
      CleanNotNoise(ns, p);
      PruneNodeShape(At(ns, p));
    }
  }

  /** Pruning twice has no effect beyond pruning once. */
  lemma {:induction false} PruneSeqIdempotent(ns: seq<Node>)
    ensures PruneSeq(PruneSeq(ns)) == PruneSeq(ns)
    decreases ns, 1
  {
    if ns != [] {
      var head := if IsNoise(ns[0]) then [] else [PruneNode(ns[0])];
      assert PruneSeq(ns) == head + PruneSeq(ns[1..]);
      PruneSeqAppend(head, PruneSeq(ns[1..]));
      PruneSeqIdempotent(ns[1..]);
      if !IsNoise(ns[0]) {
        PruneNodeIdempotent(ns[0]);
        PruneNodeShape(ns[0]);
        assert PruneSeq(head) == [PruneNode(PruneNode(ns[0]))];
      }
    }
  }

  lemma {:induction false} PruneNodeIdempotent(n: Node)
    ensures PruneNode(PruneNode(n)) == PruneNode(n)
    decreases n, 0
  {
    if n.Element? {
      PruneSeqIdempotent(n.children);
    }
  }

  /** Pruning the document a second time at the same node has no further effect. */
  lemma PruneAtIdempotent(doc: Document, p: Path)
    requires ValidPath(doc, p)
    ensures ValidPath(PruneAt(doc, p), p)
    ensures PruneAt(PruneAt(doc, p), p) == PruneAt(doc, p)
  {
    var x := PruneNode(At(doc, p));
    ReplaceAtTarget(doc, p, x);
    PruneNodeIdempotent(At(doc, p));
    ReplaceAtTwice(doc, p, x, x);
  }

  /**
    The in-place pruning of the chosen node: the node at `p` keeps its tag and
    attributes, no descendant of it has a noise tag, its subtree is the pruned
    original, and every position outside its subtree is as it was (the
    ancestors keep their tag and attributes, all other nodes are unchanged).
  */
  lemma PruneAtSpec(doc: Document, p: Path)
    requires ValidPath(doc, p)
    ensures ValidPath(PruneAt(doc, p), p)
    ensures At(PruneAt(doc, p), p) == PruneNode(At(doc, p))
    ensures Shallow(At(PruneAt(doc, p), p)) == Shallow(At(doc, p))
    ensures Kids(At(PruneAt(doc, p), p)) == PruneSeq(Kids(At(doc, p)))
    ensures forall q :: ValidPath(Kids(At(PruneAt(doc, p), p)), q) ==> !IsNoise(At(Kids(At(PruneAt(doc, p), p)), q))
    ensures forall q :: !(p <= q) ==> (ValidPath(PruneAt(doc, p), q) <==> ValidPath(doc, q))
    ensures forall q :: !(p <= q) && ValidPath(doc, q) ==> Shallow(At(PruneAt(doc, p), q)) == Shallow(At(doc, q))
    ensures forall q :: !(p <= q) && !(q <= p) && ValidPath(doc, q) ==> At(PruneAt(doc, p), q) == At(doc, q)
  {
    ReplaceAtTarget(doc, p, PruneNode(At(doc, p)));
    PruneNodeShape(At(doc, p));
    NoNoiseLeft(Kids(At(doc, p)));
    forall q | !(p <= q)
      ensures ValidPath(PruneAt(doc, p), q) <==> ValidPath(doc, q)
      ensures ValidPath(doc, q) ==> Shallow(At(PruneAt(doc, p), q)) == Shallow(At(doc, q))
      ensures ValidPath(doc, q) && !(q <= p) ==> At(PruneAt(doc, p), q) == At(doc, q)
    {
      ReplaceAtOutside(doc, p, PruneNode(At(doc, p)), q);
    }
  }
}
