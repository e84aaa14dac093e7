/** `display`: a pre-order rendering of the tree, one line per node,
    indented two spaces per level. `display` visits a directory's children
    in the iteration order of its hash map, which is unspecified; here that
    order is `Pick`, a fixed but unspecified choice from the remaining keys. */
module TreeDisplay {
  import opened Tree

  const INDENT_UNIT: string := "  "

  function Tag(n: Node): string {
    if n.isFile then "File: " else "Dir: "
  }

  /** The line printed for one node. */
  function Line(indent: string, n: Node): string {
    indent + Tag(n) + n.name
  }

  /** The indentation of a node `depth` levels below the start. */
  function Indent(depth: nat): string {
    if depth == 0 then "" else INDENT_UNIT + Indent(depth - 1)
  }

  /** The next child key the children map yields. */
  ghost function Pick(ks: set<string>): (k: string)
    requires ks != {}
    ensures k in ks
  {
    var k :| k in ks; k
  }

  /** `display(node, indent)`: the node's line, then each child's subtree one
      level deeper. */
  ghost function Render(n: Node, indent: string): seq<string> {
    [Line(indent, n)] + RenderChildren(n, n.children.Keys, indent + INDENT_UNIT)
  }

  /** The subtrees of the children `ks` of `n`, in iteration order. */
  ghost function RenderChildren(n: Node, ks: set<string>, indent: string): seq<string>
    requires ks <= n.children.Keys
    decreases n, ks
  {
    if ks == {} then []
    else
      var k := Pick(ks);
      var c := n.children[k];
      [Line(indent, c)] + RenderChildren(c, c.children.Keys, indent + INDENT_UNIT)
        + RenderChildren(n, ks - {k}, indent)
  }

  // ---------------------------------------------------------------------
  // The same traversal on paths

  function Prefixed(k: string, ps: seq<seq<string>>): (r: seq<seq<string>>)
    ensures |r| == |ps| && forall i :: 0 <= i < |ps| ==> r[i] == [k] + ps[i]
  {
    seq(|ps|, i requires 0 <= i < |ps| => [k] + ps[i])
  }

  /** The paths (relative to `n`) of the nodes in the order the traversal
      visits them. */
  ghost function Preorder(n: Node): seq<seq<string>> {
    [[]] + PreorderChildren(n, n.children.Keys)
  }

  ghost function PreorderChildren(n: Node, ks: set<string>): seq<seq<string>>
    requires ks <= n.children.Keys
    decreases n, ks
  {
    if ks == {} then []
    else
      var k := Pick(ks);
      var c := n.children[k];
      Prefixed(k, [[]] + PreorderChildren(c, c.children.Keys)) + PreorderChildren(n, ks - {k})
  }

  ghost predicate Distinct(ps: seq<seq<string>>) {
    forall i, j :: 0 <= i < j < |ps| ==> ps[i] != ps[j]
  }

  /** Depth-first pre-order: an ancestor comes before its descendants, and
      the descendants of a node directly follow it with nothing else in
      between. */
  ghost predicate PreOrdered(ps: seq<seq<string>>) {
    && (forall i, j :: 0 <= i < |ps| && 0 <= j < |ps| && ps[i] < ps[j] ==> i < j)
    && (forall i, j, l :: 0 <= i < j < l < |ps| && ps[i] <= ps[l] ==> ps[i] <= ps[j])
  }

  /** No path of `a` is a prefix of a path of `b`, nor the other way round. */
  ghost predicate Unrelated(a: seq<seq<string>>, b: seq<seq<string>>) {
    forall i, j :: 0 <= i < |a| && 0 <= j < |b| ==> !(a[i] <= b[j]) && !(b[j] <= a[i])
  }

  // ---------------------------------------------------------------------
  // Lines against paths

  lemma IndentStep(indent: string, d: nat)
    requires d >= 1
    ensures indent + Indent(d) == (indent + INDENT_UNIT) + Indent(d - 1)
  {
  }

  /** Line `i` of `r` is the line of the node at path `p[i]` below `n`, one
      level of indentation per segment after the first. */
  ghost predicate ChildLines(n: Node, r: seq<string>, p: seq<seq<string>>, indent: string) {
    && |r| == |p|
    && forall i :: 0 <= i < |p| ==>
         && |p[i]| >= 1 && Walk(n, p[i]).Reached?
         && r[i] == Line(indent + Indent(|p[i]| - 1), Walk(n, p[i]).node)
  }

  lemma ChildLinesAppend(n: Node, r1: seq<string>, p1: seq<seq<string>>,
                         r2: seq<string>, p2: seq<seq<string>>, indent: string)
    requires ChildLines(n, r1, p1, indent) && ChildLines(n, r2, p2, indent)
    ensures ChildLines(n, r1 + r2, p1 + p2, indent)
  {
    var r, p := r1 + r2, p1 + p2;
    forall i | |p1| <= i < |p| ensures p[i] == p2[i - |p1|] && r[i] == r2[i - |p1|] {
    }
  }

  /** One child's block: its own line, then its subtree one level deeper. */
  lemma ChildBlock(n: Node, k: string, rc: seq<string>, pc: seq<seq<string>>, indent: string)
    requires k in n.children
    requires ChildLines(n.children[k], rc, pc, indent + INDENT_UNIT)
    ensures ChildLines(n, [Line(indent, n.children[k])] + rc, Prefixed(k, [[]] + pc), indent)
  {
    var c := n.children[k];
    var r, p := [Line(indent, c)] + rc, Prefixed(k, [[]] + pc);
    forall i | 0 <= i < |p|
      ensures |p[i]| >= 1 && Walk(n, p[i]).Reached?
      ensures r[i] == Line(indent + Indent(|p[i]| - 1), Walk(n, p[i]).node)
    {
      if i == 0 {
        assert p[i] == [k] + [];
        assert indent + Indent(0) == indent;
      } else {
        var x := pc[i - 1];
        assert p[i] == [k] + x && r[i] == rc[i - 1];
        assert ([k] + x)[1..] == x;
        IndentStep(indent, |x|);
      }
    }
  }

  /** Each line rendered for the children `ks` is the line of the node at the
      path visited at the same position, indented by its depth. */
  lemma {:induction false} RenderChildrenLines(n: Node, ks: set<string>, indent: string)
    requires ks <= n.children.Keys
    ensures ChildLines(n, RenderChildren(n, ks, indent), PreorderChildren(n, ks), indent)
    decreases n, ks
  {
    if ks != {} {
      var k := Pick(ks);
      var c := n.children[k];
      var unit := indent + INDENT_UNIT;
      RenderChildrenLines(c, c.children.Keys, unit);
      RenderChildrenLines(n, ks - {k}, indent);
      var rc, pc := RenderChildren(c, c.children.Keys, unit), PreorderChildren(c, c.children.Keys);
      ChildBlock(n, k, rc, pc, indent);
      ChildLinesAppend(n, [Line(indent, c)] + rc, Prefixed(k, [[]] + pc),
        RenderChildren(n, ks - {k}, indent), PreorderChildren(n, ks - {k}), indent);
    }
  }

  /** `display(node, indent)` prints exactly one line per node that the
      traversal visits, in that order: the node's `Dir: `/`File: ` tag and
      name, after `indent` and two spaces per level below `n`. */
  lemma RenderLines(n: Node, indent: string)
    ensures var r, p := Render(n, indent), Preorder(n);
      && |r| == |p|
      && forall i :: 0 <= i < |p| ==>
           && Walk(n, p[i]).Reached?
           && r[i] == Line(indent + Indent(|p[i]|), Walk(n, p[i]).node)
  {
    var unit := indent + INDENT_UNIT;
    RenderChildrenLines(n, n.children.Keys, unit);
    var r, p := Render(n, indent), Preorder(n);
    var rc, pc := RenderChildren(n, n.children.Keys, unit), PreorderChildren(n, n.children.Keys);
    forall i | 0 <= i < |p|
      ensures Walk(n, p[i]).Reached? && r[i] == Line(indent + Indent(|p[i]|), Walk(n, p[i]).node)
    {
      if i == 0 {
        assert indent + Indent(0) == indent;
      } else {
        assert p[i] == pc[i - 1] && r[i] == rc[i - 1];
        IndentStep(indent, |p[i]|);
      }
    }
  }

  // ---------------------------------------------------------------------
  // Which paths the traversal visits

  lemma PrefixedContains(k: string, ps: seq<seq<string>>, q: seq<string>)
    ensures q in Prefixed(k, ps) <==> q != [] && q[0] == k && q[1..] in ps
  {
    var r := Prefixed(k, ps);
    if q in r {
      var i :| 0 <= i < |r| && r[i] == q;
      assert q[1..] == ps[i];
    }
    if q != [] && q[0] == k && q[1..] in ps {
      var i :| 0 <= i < |ps| && ps[i] == q[1..];
      assert r[i] == q;
    }
  }

  /** The children part visits exactly the reachable paths that start with
      one of the keys `ks`. */
  lemma {:induction false} PreorderChildrenContains(n: Node, ks: set<string>, q: seq<string>)
    requires ks <= n.children.Keys
    ensures q in PreorderChildren(n, ks) <==> q != [] && q[0] in ks && Walk(n, q).Reached?
    decreases n, ks
  {
    if ks != {} {
      var k := Pick(ks);
      var c := n.children[k];
      var pc := PreorderChildren(c, c.children.Keys);
      PrefixedContains(k, [[]] + pc, q);
      PreorderChildrenContains(n, ks - {k}, q);
      if q != [] {
        PreorderChildrenContains(c, c.children.Keys, q[1..]);
        if q[0] == k {
          assert Walk(n, q) == Walk(c, q[1..]);
        }
      }
    }
  }

  /** The traversal visits exactly the nodes reachable from `n`. */
  lemma PreorderContains(n: Node, q: seq<string>)
    ensures q in Preorder(n) <==> Walk(n, q).Reached?
  {
    PreorderChildrenContains(n, n.children.Keys, q);
  }

  // ---------------------------------------------------------------------
  // Each node once, in pre-order

  lemma PrefixedKeeps(k: string, ps: seq<seq<string>>)
    ensures Distinct(ps) ==> Distinct(Prefixed(k, ps))
    ensures PreOrdered(ps) ==> PreOrdered(Prefixed(k, ps))
  {
    var r := Prefixed(k, ps);
    forall x, y ensures [k] + x <= [k] + y <==> x <= y {
      assert ([k] + x)[1..] == x && ([k] + y)[1..] == y;
    }
    forall x, y ensures [k] + x < [k] + y <==> x < y {
      assert ([k] + x)[1..] == x && ([k] + y)[1..] == y;
    }
  }

  lemma RootFirstKeeps(ps: seq<seq<string>>)
    requires forall i :: 0 <= i < |ps| ==> ps[i] != []
    ensures Distinct(ps) ==> Distinct([[]] + ps)
    ensures PreOrdered(ps) ==> PreOrdered([[]] + ps)
  {
    var r := [[]] + ps;
    assert forall i :: 1 <= i < |r| ==> r[i] == ps[i - 1];
    assert forall i :: 0 <= i < |r| ==> [] <= r[i];
  }

  lemma AppendKeeps(a: seq<seq<string>>, b: seq<seq<string>>)
    requires Unrelated(a, b)
    ensures Distinct(a) && Distinct(b) ==> Distinct(a + b)
    ensures PreOrdered(a) && PreOrdered(b) ==> PreOrdered(a + b)
  {
    var r := a + b;
    assert forall i :: |a| <= i < |r| ==> r[i] == b[i - |a|];
  }

  /** The paths of one child's block all start with its key; those of the
      other children start with other keys. */
  lemma {:induction false} PreorderChildrenKeys(n: Node, ks: set<string>)
    requires ks <= n.children.Keys
    ensures forall i :: 0 <= i < |PreorderChildren(n, ks)| ==>
      PreorderChildren(n, ks)[i] != [] && PreorderChildren(n, ks)[i][0] in ks
  {
    var p := PreorderChildren(n, ks);
    forall i | 0 <= i < |p| ensures p[i] != [] && p[i][0] in ks {
      PreorderChildrenContains(n, ks, p[i]);
    }
  }

  /** The traversal of the children `ks` visits no path twice and is a
      depth-first pre-order. */
  lemma {:induction false} PreorderChildrenShape(n: Node, ks: set<string>)
    requires ks <= n.children.Keys
    ensures Distinct(PreorderChildren(n, ks)) && PreOrdered(PreorderChildren(n, ks))
    decreases n, ks
  {
    if ks != {} {
      var k := Pick(ks);
      var c := n.children[k];
      var pc := PreorderChildren(c, c.children.Keys);
      var pr := PreorderChildren(n, ks - {k});
      PreorderChildrenShape(c, c.children.Keys);
      PreorderChildrenShape(n, ks - {k});
      PreorderChildrenKeys(c, c.children.Keys);
      PreorderChildrenKeys(n, ks - {k});
      RootFirstKeeps(pc);
      var head := Prefixed(k, [[]] + pc);
      PrefixedKeeps(k, [[]] + pc);
      forall i, j | 0 <= i < |head| && 0 <= j < |pr|
        ensures !(head[i] <= pr[j]) && !(pr[j] <= head[i])
      {
        assert head[i][0] == k && pr[j][0] != k;
      }
      AppendKeeps(head, pr);
    }
  }

  /** `display` lists every node reachable from `n` exactly once, in
      depth-first pre-order, starting with `n` itself. */
  lemma PreorderShape(n: Node)
    ensures Preorder(n)[0] == []
    ensures Distinct(Preorder(n)) && PreOrdered(Preorder(n))
    ensures forall q :: q in Preorder(n) <==> Walk(n, q).Reached?
  {
    PreorderChildrenShape(n, n.children.Keys);
    PreorderChildrenKeys(n, n.children.Keys);
    RootFirstKeeps(PreorderChildren(n, n.children.Keys));
    forall q ensures q in Preorder(n) <==> Walk(n, q).Reached? {
      PreorderContains(n, q);
    }
  }
}
