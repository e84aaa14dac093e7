/** The namespace tree: a node is a directory or a file with a name, an
    opaque content string and a map from child name to child. The tree owns
    its nodes strictly (no parent links, no sharing), so a node is a value. */
module Tree {

  datatype Node = Node(name: string, isFile: bool, content: string, children: map<string, Node>)

  /** A freshly allocated node: empty content, no children. */
  function NewNode(name: string, isFile: bool): Node {
    Node(name, isFile, "", map[])
  }

  /** What a display line and a lookup show of a node, its subtree aside. */
  datatype Label = Label(name: string, isFile: bool, content: string)

  function LabelOf(n: Node): Label {
    Label(n.name, n.isFile, n.content)
  }

  /** Where a walk down the tree ends: at a node, or at the first segment
      that is not a key of the current node's children. */
  datatype Walked = Reached(node: Node) | Stuck(segment: string)

  /** Follow `segs` from `n`, one children-map lookup per segment. */
  function Walk(n: Node, segs: seq<string>): (r: Walked)
    ensures r.Stuck? ==> r.segment in segs
    decreases |segs|
  {
    if segs == [] then Reached(n)
    else if segs[0] in n.children then Walk(n.children[segs[0]], segs[1..])
    else Stuck(segs[0])
  }

  /** `n` with the node at the reachable path `p` replaced by `m`: how an
      update in place of one node's children map looks on the value of the
      whole tree. */
  function ReplaceAt(n: Node, p: seq<string>, m: Node): (r: Node)
    requires Walk(n, p).Reached?
    ensures Walk(r, p) == Reached(m)
    ensures p != [] ==> LabelOf(r) == LabelOf(n) && r.children.Keys == n.children.Keys
    decreases |p|
  {
    if p == [] then m
    else n.(children := n.children[p[0] := ReplaceAt(n.children[p[0]], p[1..], m)])
  }

  /** Every child is named by its key, all the way down. */
  ghost predicate WellNamed(n: Node) {
    forall k :: k in n.children ==> n.children[k].name == k && WellNamed(n.children[k])
  }

  // ---------------------------------------------------------------------
  // Walking

  /** A walk along `a + b` is a walk along `a` and then along `b`. */
  lemma {:induction false} WalkAppend(n: Node, a: seq<string>, b: seq<string>)
    ensures Walk(n, a + b) == match Walk(n, a)
                              case Reached(m) => Walk(m, b)
                              case Stuck(c) => Stuck(c)
    decreases |a|
  {
    if a == [] {
      assert a + b == b;
    } else {
      assert (a + b)[0] == a[0] && (a + b)[1..] == a[1..] + b;
      if a[0] in n.children {
        WalkAppend(n.children[a[0]], a[1..], b);
      }
    }
  }

  /** Every prefix of a reachable path is reachable. */
  lemma WalkPrefix(n: Node, p: seq<string>, i: nat)
    requires i <= |p| && Walk(n, p).Reached?
    ensures Walk(n, p[..i]).Reached?
  {
    WalkAppend(n, p[..i], p[i..]);
    assert p[..i] + p[i..] == p;
  }

  /** Navigation succeeds exactly when each segment is a key of the children
      of the node reached so far; otherwise it stops at the first segment
      that is not, and reports it. */
  lemma {:induction false} WalkSteps(n: Node, segs: seq<string>)
    ensures Walk(n, segs).Reached? <==>
      forall i :: 0 <= i < |segs| ==>
        Walk(n, segs[..i]).Reached? && segs[i] in Walk(n, segs[..i]).node.children
    ensures Walk(n, segs).Stuck? ==>
      exists i :: 0 <= i < |segs| && Walk(n, segs[..i]).Reached? &&
        segs[i] !in Walk(n, segs[..i]).node.children && Walk(n, segs).segment == segs[i]
    decreases |segs|
  {
    if segs != [] {
      var init, last := segs[..|segs| - 1], segs[|segs| - 1];
      WalkSteps(n, init);
      WalkAppend(n, init, [last]);
      assert init + [last] == segs;
      assert forall i :: 0 <= i < |init| ==> init[..i] == segs[..i] && init[i] == segs[i];
      assert segs[..|segs| - 1] == init;
      if Walk(n, segs).Reached? {
        forall i | 0 <= i < |segs|
          ensures Walk(n, segs[..i]).Reached? && segs[i] in Walk(n, segs[..i]).node.children
        {
          WalkPrefix(n, segs, i + 1);
          WalkAppend(n, segs[..i], [segs[i]]);
          assert segs[..i] + [segs[i]] == segs[..i + 1];
        }
      }
    }
  }

  // ---------------------------------------------------------------------
  // Replacing a subtree

  /** What replacing the node at `p` by `m` does to every path `q`: paths
      below `p` now lead into `m`; paths that branch off `p` are untouched;
      the nodes on the way to `p` keep their labels. */
  lemma {:induction false} WalkReplaceAt(n: Node, p: seq<string>, m: Node, q: seq<string>)
    requires Walk(n, p).Reached?
    ensures p <= q ==> Walk(ReplaceAt(n, p, m), q) == Walk(m, q[|p|..])
    ensures !(p <= q) && !(q <= p) ==> Walk(ReplaceAt(n, p, m), q) == Walk(n, q)
    ensures q < p ==>
      && Walk(n, q).Reached? && Walk(ReplaceAt(n, p, m), q).Reached?
      && LabelOf(Walk(ReplaceAt(n, p, m), q).node) == LabelOf(Walk(n, q).node)
    decreases |p|
  {
    var r := ReplaceAt(n, p, m);
    if p == [] {
      assert q[|p|..] == q;
    } else if q == [] {
    } else if q[0] != p[0] {
      assert !(p <= q) && !(q <= p);
    } else {
      var c := n.children[p[0]];
      WalkReplaceAt(c, p[1..], m, q[1..]);
      assert p <= q <==> p[1..] <= q[1..];
      assert q < p <==> q[1..] < p[1..];
      if p <= q {
        assert q[|p|..] == q[1..][|p[1..]|..];
      }
    }
  }

  /** Putting back the node that is already there changes nothing. */
  lemma {:induction false} ReplaceAtSame(n: Node, p: seq<string>)
    requires Walk(n, p).Reached?
    ensures ReplaceAt(n, p, Walk(n, p).node) == n
    decreases |p|
  {
    if p != [] {
      ReplaceAtSame(n.children[p[0]], p[1..]);
      assert n.children[p[0] := n.children[p[0]]] == n.children;
    }
  }

  /** A second replacement at the same path overrides the first. */
  lemma {:induction false} ReplaceAtTwice(n: Node, p: seq<string>, m1: Node, m2: Node)
    requires Walk(n, p).Reached?
    ensures Walk(ReplaceAt(n, p, m1), p).Reached?
    ensures ReplaceAt(ReplaceAt(n, p, m1), p, m2) == ReplaceAt(n, p, m2)
    decreases |p|
  {
    if p != [] {
      ReplaceAtTwice(n.children[p[0]], p[1..], m1, m2);
    }
  }

  // ---------------------------------------------------------------------
  // Names match keys

  /** In a well-named tree every reachable node is well-named and is called
      by the last segment of its path. */
  lemma {:induction false} WellNamedWalk(n: Node, p: seq<string>)
    requires WellNamed(n) && Walk(n, p).Reached?
    ensures WellNamed(Walk(n, p).node)
    ensures p != [] ==> Walk(n, p).node.name == p[|p| - 1]
    decreases |p|
  {
    if p != [] {
      WellNamedWalk(n.children[p[0]], p[1..]);
      if |p| > 1 {
        assert p[1..][|p[1..]| - 1] == p[|p| - 1];
      }
    }
  }

  /** Replacing a node by a well-named node of the same name keeps the tree
      well-named. */
  lemma {:induction false} WellNamedReplaceAt(n: Node, p: seq<string>, m: Node)
    requires WellNamed(n) && WellNamed(m) && Walk(n, p).Reached?
    requires m.name == Walk(n, p).node.name
    ensures WellNamed(ReplaceAt(n, p, m))
    decreases |p|
  {
    if p != [] {
      WellNamedReplaceAt(n.children[p[0]], p[1..], m);
    }
  }
}
