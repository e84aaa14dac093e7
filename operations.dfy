/** What each file-system operation does to the whole state: the tree under
    the root and the stack of deleted nodes. The methods of
    Simulator.FileSystem are proved to have exactly these effects. */
module Operations {
  import opened Tree

  /** The failures the operations report; the simulator prints one
      diagnostic line for each. */
  datatype FsError =
    | InvalidPathComponent(component: string)  // a parent segment is missing
    | AlreadyExists(name: string)              // create: the name is taken
    | NotFound(name: string)                   // navigate or delete: nothing there
    | NothingToUndo                            // undo: the stack is empty

  datatype Status = Done | Failed(error: FsError)

  datatype Result<T> = Ok(value: T) | Err(error: FsError)

  /** The whole state; the top of the undo stack is its last element. */
  datatype Snapshot = Snapshot(root: Node, undoStack: seq<Node>)

  const ROOT_NAME: string := "/"

  /** A new file system: an empty directory called "/". */
  function Initial(): Snapshot {
    Snapshot(NewNode(ROOT_NAME, false), [])
  }

  /** The invariant every operation keeps: the root is a directory named
      "/", and every node (in the tree or on the stack) is named by its key. */
  ghost predicate Consistent(s: Snapshot) {
    && s.root.name == ROOT_NAME && !s.root.isFile
    && WellNamed(s.root)
    && forall i :: 0 <= i < |s.undoStack| ==> WellNamed(s.undoStack[i])
  }

  function Parents(segs: seq<string>): seq<string>
    requires segs != []
  {
    segs[..|segs| - 1]
  }

  function Last(segs: seq<string>): string
    requires segs != []
  {
    segs[|segs| - 1]
  }

  /** A path is its parents followed by its last segment. */
  lemma SplitAtLast(segs: seq<string>)
    requires segs != []
    ensures segs == Parents(segs) + [Last(segs)]
  {
  }

  /** `navigateTo`: the node at the path, or the first missing segment. */
  function Navigate(root: Node, segs: seq<string>): Result<Node> {
    match Walk(root, segs)
    case Reached(n) => Ok(n)
    case Stuck(c) => Err(NotFound(c))
  }

  /** `create`: resolve the parents from the root, refuse a taken name, else
      add a fresh node under the parent. The parent is not required to be a
      directory. */
  function CreateEffect(s: Snapshot, segs: seq<string>, isFile: bool): (Status, Snapshot)
    requires segs != []
  {
    var parents, name := Parents(segs), Last(segs);
    match Walk(s.root, parents)
    case Stuck(c) => (Failed(InvalidPathComponent(c)), s)
    case Reached(p) =>
      if name in p.children then (Failed(AlreadyExists(name)), s)
      else
        var p' := p.(children := p.children[name := NewNode(name, isFile)]);
        (Done, s.(root := ReplaceAt(s.root, parents, p')))
  }

  /** `deleteNode`: resolve the parents, then detach the target subtree and
      push it on the undo stack. */
  function DeleteEffect(s: Snapshot, segs: seq<string>): (Status, Snapshot)
    requires segs != []
  {
    var parents, name := Parents(segs), Last(segs);
    match Walk(s.root, parents)
    case Stuck(c) => (Failed(InvalidPathComponent(c)), s)
    case Reached(p) =>
      if name !in p.children then (Failed(NotFound(name)), s)
      else
        var p' := p.(children := p.children - {name});
        (Done, Snapshot(ReplaceAt(s.root, parents, p'), s.undoStack + [p.children[name]]))
  }

  /** `undoDelete`: pop the top node and make it a child of the root under its
      own name, replacing whatever the root had under that name. */
  function UndoEffect(s: Snapshot): (Status, Snapshot) {
    if s.undoStack == [] then (Failed(NothingToUndo), s)
    else
      var node := s.undoStack[|s.undoStack| - 1];
      var root' := s.root.(children := s.root.children[node.name := node]);
      (Done, Snapshot(root', s.undoStack[..|s.undoStack| - 1]))
  }

  // ---------------------------------------------------------------------
  // Navigate

  /** The empty path names the root; any other path is found exactly when
      each segment is a child of the node reached so far, and otherwise the
      error names the first segment that is not. */
  lemma NavigateOutcome(root: Node, segs: seq<string>)
    ensures segs == [] ==> Navigate(root, segs) == Ok(root)
    ensures Navigate(root, segs).Ok? <==>
      forall i :: 0 <= i < |segs| ==>
        Walk(root, segs[..i]).Reached? && segs[i] in Walk(root, segs[..i]).node.children
    ensures Navigate(root, segs).Err? ==>
      exists i :: 0 <= i < |segs| && Walk(root, segs[..i]).Reached? &&
        segs[i] !in Walk(root, segs[..i]).node.children &&
        Navigate(root, segs).error == NotFound(segs[i])
  {
    WalkSteps(root, segs);
  }

  // ---------------------------------------------------------------------
  // Create

  /** Adding one fresh leaf under the node at `parents` adds exactly the path
      `parents + [name]` and keeps the label of every node already there. */
  lemma CreatePath(root: Node, parents: seq<string>, name: string, isFile: bool, q: seq<string>)
    requires Walk(root, parents).Reached?
    requires name !in Walk(root, parents).node.children
    ensures var p := Walk(root, parents).node;
      var t := ReplaceAt(root, parents, p.(children := p.children[name := NewNode(name, isFile)]));
      && (Walk(t, q).Reached? <==> Walk(root, q).Reached? || q == parents + [name])
      && (Walk(root, q).Reached? ==> LabelOf(Walk(t, q).node) == LabelOf(Walk(root, q).node))
  {
    var p := Walk(root, parents).node;
    var m := p.(children := p.children[name := NewNode(name, isFile)]);
    WalkReplaceAt(root, parents, m, q);
    if parents <= q {
      var r := q[|parents|..];
      WalkAppend(root, parents, r);
      assert parents + r == q;
      if r != [] && r[0] == name {
        assert q == parents + [name] <==> r[1..] == [];
      } else {
        assert (parents + [name])[|parents|..] == [name];
      }
    } else {
      assert parents <= parents + [name];
    }
  }

  /** A create succeeds exactly when the parent path resolves and the path is
      not taken yet (by a file or a directory). On success the tree gains
      exactly one node, a fresh one at the path, and every other node keeps
      its label; on failure nothing changes. The undo stack never changes. */
  lemma CreateOutcome(s: Snapshot, segs: seq<string>, isFile: bool)
    requires segs != []
    ensures var (st, t) := CreateEffect(s, segs, isFile);
      && t.undoStack == s.undoStack
      && (st == Done <==> Walk(s.root, Parents(segs)).Reached? && !Walk(s.root, segs).Reached?)
      && (Walk(s.root, Parents(segs)).Stuck? ==>
            st == Failed(InvalidPathComponent(Walk(s.root, Parents(segs)).segment)))
      && (Walk(s.root, segs).Reached? ==> st == Failed(AlreadyExists(Last(segs))))
      && (st != Done ==> t == s)
      && (st == Done ==> Walk(t.root, segs) == Reached(NewNode(Last(segs), isFile)))
      && (st == Done ==> forall q :: Walk(t.root, q).Reached? <==> Walk(s.root, q).Reached? || q == segs)
      && (st == Done ==> forall q :: Walk(s.root, q).Reached? ==>
            LabelOf(Walk(t.root, q).node) == LabelOf(Walk(s.root, q).node))
  {
    var parents, name := Parents(segs), Last(segs);
    SplitAtLast(segs);
    WalkAppend(s.root, parents, [name]);
    var (st, t) := CreateEffect(s, segs, isFile);
    if st == Done {
      var p := Walk(s.root, parents).node;
      var m := p.(children := p.children[name := NewNode(name, isFile)]);
      WalkAppend(t.root, parents, [name]);
      forall q
        ensures Walk(t.root, q).Reached? <==> Walk(s.root, q).Reached? || q == segs
        ensures Walk(s.root, q).Reached? ==> LabelOf(Walk(t.root, q).node) == LabelOf(Walk(s.root, q).node)
      {
        CreatePath(s.root, parents, name, isFile, q);
      }
    }
  }

  /** Creating the same path twice always fails the second time: with
      AlreadyExists when the first one succeeded, whatever the kinds. */
  lemma CreateTwice(s: Snapshot, segs: seq<string>, isFile1: bool, isFile2: bool)
    requires segs != []
    ensures var (st1, t) := CreateEffect(s, segs, isFile1);
      var (st2, u) := CreateEffect(t, segs, isFile2);
      && st2.Failed? && u == t
      && (st1 == Done ==> st2 == Failed(AlreadyExists(Last(segs))))
  {
    var (st1, t) := CreateEffect(s, segs, isFile1);
    CreateOutcome(s, segs, isFile1);
    CreateOutcome(t, segs, isFile2);
    if st1 != Done {
      assert t == s;
    }
  }

  // ---------------------------------------------------------------------
  // Delete

  /** Removing the child `name` of the node at `parents` removes exactly the
      paths through it and keeps the label of every node that remains. */
  lemma DeletePath(root: Node, parents: seq<string>, name: string, q: seq<string>)
    requires Walk(root, parents).Reached?
    requires name in Walk(root, parents).node.children
    ensures var p := Walk(root, parents).node;
      var t := ReplaceAt(root, parents, p.(children := p.children - {name}));
      && (Walk(t, q).Reached? <==> Walk(root, q).Reached? && !(parents + [name] <= q))
      && (Walk(t, q).Reached? ==> LabelOf(Walk(t, q).node) == LabelOf(Walk(root, q).node))
  {
    var p := Walk(root, parents).node;
    var m := p.(children := p.children - {name});
    WalkReplaceAt(root, parents, m, q);
    if parents <= q {
      var r := q[|parents|..];
      WalkAppend(root, parents, r);
      assert parents + r == q;
      assert parents + [name] <= q <==> r != [] && r[0] == name;
      if r != [] && r[0] != name {
        assert Walk(m, r) == Walk(p, r);
      }
    } else {
      assert !(parents + [name] <= q);
    }
  }

  /** A delete succeeds exactly when the path names a node. On success that
      subtree, unmodified, is pushed on the undo stack and every path through
      it disappears while all other nodes keep their labels; on failure
      nothing changes, and the error names the missing parent segment or
      the missing target. */
  lemma DeleteOutcome(s: Snapshot, segs: seq<string>)
    requires segs != []
    ensures var (st, t) := DeleteEffect(s, segs);
      && (st == Done <==> Walk(s.root, segs).Reached?)
      && (Walk(s.root, Parents(segs)).Stuck? ==>
            st == Failed(InvalidPathComponent(Walk(s.root, Parents(segs)).segment)))
      && (Walk(s.root, Parents(segs)).Reached? && !Walk(s.root, segs).Reached? ==>
            st == Failed(NotFound(Last(segs))))
      && (st != Done ==> t == s)
      && (st == Done ==> t.undoStack == s.undoStack + [Walk(s.root, segs).node])
      && (st == Done ==> Walk(t.root, segs) == Stuck(Last(segs)))
      && (st == Done ==> forall q :: Walk(t.root, q).Reached? <==> Walk(s.root, q).Reached? && !(segs <= q))
      && (st == Done ==> forall q :: Walk(t.root, q).Reached? ==>
            LabelOf(Walk(t.root, q).node) == LabelOf(Walk(s.root, q).node))
  {
    var parents, name := Parents(segs), Last(segs);
    SplitAtLast(segs);
    WalkAppend(s.root, parents, [name]);
    var (st, t) := DeleteEffect(s, segs);
    if st == Done {
      WalkAppend(t.root, parents, [name]);
      forall q
        ensures Walk(t.root, q).Reached? <==> Walk(s.root, q).Reached? && !(segs <= q)
        ensures Walk(t.root, q).Reached? ==> LabelOf(Walk(t.root, q).node) == LabelOf(Walk(s.root, q).node)
      {
        DeletePath(s.root, parents, name, q);
      }
    }
  }

  /** Deleting what was just created gives the tree back as it was; the
      fresh node is left on the undo stack. */
  lemma CreateThenDelete(s: Snapshot, segs: seq<string>, isFile: bool)
    requires segs != []
    requires CreateEffect(s, segs, isFile).0 == Done
    ensures DeleteEffect(CreateEffect(s, segs, isFile).1, segs) ==
      (Done, Snapshot(s.root, s.undoStack + [NewNode(Last(segs), isFile)]))
  {
    var parents, name := Parents(segs), Last(segs);
    var p := Walk(s.root, parents).node;
    var leaf := NewNode(name, isFile);
    var m := p.(children := p.children[name := leaf]);
    var t := CreateEffect(s, segs, isFile).1;
    ReplaceAtTwice(s.root, parents, m, m.(children := m.children - {name}));
    assert m.children - {name} == p.children;
    assert m.(children := m.children - {name}) == p;
    ReplaceAtSame(s.root, parents);
  }

  // ---------------------------------------------------------------------
  // Undo

  /** Undo fails, changing nothing, exactly when the stack is empty.
      Otherwise it pops the top node and makes it the root's child under its
      own name, overwriting any child already called that; paths under other
      root children are untouched and the root keeps its label. */
  lemma UndoOutcome(s: Snapshot)
    ensures var (st, t) := UndoEffect(s);
      && (st == Done <==> s.undoStack != [])
      && (st != Done ==> st == Failed(NothingToUndo) && t == s)
      && (st == Done ==>
            var node := s.undoStack[|s.undoStack| - 1];
            && t.undoStack == s.undoStack[..|s.undoStack| - 1]
            && LabelOf(t.root) == LabelOf(s.root)
            && Walk(t.root, [node.name]) == Reached(node)
            && (forall q :: Walk(t.root, [node.name] + q) == Walk(node, q))
            && (forall q :: q != [] && q[0] != node.name ==> Walk(t.root, q) == Walk(s.root, q)))
  {
    var (st, t) := UndoEffect(s);
    if st == Done {
      var node := s.undoStack[|s.undoStack| - 1];
      forall q ensures Walk(t.root, [node.name] + q) == Walk(node, q) {
        assert ([node.name] + q)[0] == node.name && ([node.name] + q)[1..] == q;
      }
    }
  }

  /** `k` undos in a row. */
  function UndoRepeat(s: Snapshot, k: nat): Snapshot {
    if k == 0 then s else UndoEffect(UndoRepeat(s, k - 1)).1
  }

  /** Undo is last in, first out: the k-th undo in a row restores the k-th
      node from the top of the stack, and once the stack is used up undo
      reports NothingToUndo. */
  lemma {:induction false} UndoReverseOrder(s: Snapshot, k: nat)
    requires 1 <= k <= |s.undoStack|
    ensures var n := |s.undoStack|; var node := s.undoStack[n - k];
      && UndoEffect(UndoRepeat(s, k - 1)).0 == Done
      && UndoRepeat(s, k).undoStack == s.undoStack[..n - k]
      && Walk(UndoRepeat(s, k).root, [node.name]) == Reached(node)
    ensures k == |s.undoStack| ==> UndoEffect(UndoRepeat(s, k)).0 == Failed(NothingToUndo)
  {
    var n := |s.undoStack|;
    var before := UndoRepeat(s, k - 1);
    assert before.undoStack == s.undoStack[..n - (k - 1)] by {
      if k > 1 {
        UndoReverseOrder(s, k - 1);
      }
    }
    assert before.undoStack[|before.undoStack| - 1] == s.undoStack[n - k];
    assert before.undoStack[..|before.undoStack| - 1] == s.undoStack[..n - k];
  }

  /** Undo restores a deleted subtree whole, but as a child of the root, not
      of its old parent: a root child comes back exactly as it was, and a
      deeper node is not found again at its old path. */
  lemma DeleteThenUndo(s: Snapshot, segs: seq<string>)
    requires Consistent(s) && segs != []
    requires DeleteEffect(s, segs).0 == Done
    ensures var t := DeleteEffect(s, segs).1;
      var (st, u) := UndoEffect(t);
      && st == Done && u.undoStack == s.undoStack
      && Walk(u.root, [Last(segs)]) == Walk(s.root, segs)
      && (|segs| == 1 ==> u == s)
      && (|segs| > 1 && segs[0] != Last(segs) ==> Walk(u.root, segs).Stuck?)
  {
    UndoAfterDelete(s, segs);
    if |segs| == 1 {
      UndoAfterDeleteAtRoot(s, segs);
    } else if segs[0] != Last(segs) {
      UndoAfterDeleteDeep(s, segs);
    }
  }

  /** A node deleted below a root child is not found at its old path after
      the undo. */
  lemma UndoAfterDeleteDeep(s: Snapshot, segs: seq<string>)
    requires Consistent(s) && |segs| > 1 && segs[0] != Last(segs)
    requires DeleteEffect(s, segs).0 == Done
    ensures Walk(UndoEffect(DeleteEffect(s, segs).1).1.root, segs).Stuck?
  {
    var parents, name := Parents(segs), Last(segs);
    SplitAtLast(segs);
    WalkAppend(s.root, parents, [name]);
    WellNamedWalk(s.root, segs);
    var t := DeleteEffect(s, segs).1;
    DeleteVanishes(s, segs);
    var u := UndoEffect(t).1;
    assert u.root == t.root.(children := t.root.children[name := Walk(s.root, segs).node]);
    assert Walk(u.root, segs) == Walk(t.root, segs);
  }

  /** The pushed subtree is popped again and hangs under the root by the
      name of the deleted path's last segment. */
  lemma UndoAfterDelete(s: Snapshot, segs: seq<string>)
    requires WellNamed(s.root) && segs != []
    requires DeleteEffect(s, segs).0 == Done
    ensures UndoEffect(DeleteEffect(s, segs).1).0 == Done
    ensures UndoEffect(DeleteEffect(s, segs).1).1.undoStack == s.undoStack
    ensures Walk(UndoEffect(DeleteEffect(s, segs).1).1.root, [Last(segs)]) == Walk(s.root, segs)
  {
    var parents, name := Parents(segs), Last(segs);
    assert Walk(s.root, parents).Reached?;
    var p := Walk(s.root, parents).node;
    assert name in p.children;
    var node := p.children[name];
    SplitAtLast(segs);
    WalkAppend(s.root, parents, [name]);
    assert Walk(s.root, segs) == Reached(node);
    WellNamedWalk(s.root, segs);
    var t := DeleteEffect(s, segs).1;
    assert t.undoStack == s.undoStack + [node];
    assert t.undoStack[..|t.undoStack| - 1] == s.undoStack;
    var u := UndoEffect(t).1;
    assert u.root.children[name] == node;
  }

  /** Deleting a child of the root and undoing gives back the same state. */
  lemma UndoAfterDeleteAtRoot(s: Snapshot, segs: seq<string>)
    requires Consistent(s) && |segs| == 1
    requires DeleteEffect(s, segs).0 == Done
    ensures UndoEffect(DeleteEffect(s, segs).1).1 == s
  {
    var name := segs[0];
    assert Parents(segs) == [];
    var node := s.root.children[name];
    assert node.name == name;
    var t := DeleteEffect(s, segs).1;
    assert t.root == s.root.(children := s.root.children - {name});
    assert t.undoStack[..|t.undoStack| - 1] == s.undoStack;
    assert s.root.children - {name} + map[name := node] == s.root.children;
  }

  /** After a delete the path is no longer found. */
  lemma DeleteVanishes(s: Snapshot, segs: seq<string>)
    requires segs != [] && DeleteEffect(s, segs).0 == Done
    ensures Walk(DeleteEffect(s, segs).1.root, segs) == Stuck(Last(segs))
  {
    var parents, name := Parents(segs), Last(segs);
    var p := Walk(s.root, parents).node;
    var t := DeleteEffect(s, segs).1;
    SplitAtLast(segs);
    WalkAppend(t.root, parents, [name]);
  }

  // ---------------------------------------------------------------------
  // The invariant

  /** Create keeps the root a directory named "/" and every node named by
      its key. */
  lemma CreateKeepsConsistent(s: Snapshot, segs: seq<string>, isFile: bool)
    requires Consistent(s) && segs != []
    ensures Consistent(CreateEffect(s, segs, isFile).1)
  {
    var parents, name := Parents(segs), Last(segs);
    match Walk(s.root, parents)
    case Stuck(_) =>
    case Reached(p) =>
      if name !in p.children {
        WellNamedWalk(s.root, parents);
        var m := p.(children := p.children[name := NewNode(name, isFile)]);
        WellNamedReplaceAt(s.root, parents, m);
      }
  }

  /** Delete keeps the invariant, for the tree and for the pushed subtree. */
  lemma DeleteKeepsConsistent(s: Snapshot, segs: seq<string>)
    requires Consistent(s) && segs != []
    ensures Consistent(DeleteEffect(s, segs).1)
  {
    var parents, name := Parents(segs), Last(segs);
    match Walk(s.root, parents)
    case Stuck(_) =>
    case Reached(p) =>
      if name in p.children {
        WellNamedWalk(s.root, parents);
        var m := p.(children := p.children - {name});
        WellNamedReplaceAt(s.root, parents, m);
        var t := DeleteEffect(s, segs).1;
        assert forall i :: 0 <= i < |s.undoStack| ==> t.undoStack[i] == s.undoStack[i];
      }
  }

  /** Undo keeps the invariant: the restored node is hung under its own name. */
  lemma UndoKeepsConsistent(s: Snapshot)
    requires Consistent(s)
    ensures Consistent(UndoEffect(s).1)
  {
    if s.undoStack != [] {
      var t := UndoEffect(s).1;
      assert forall i :: 0 <= i < |t.undoStack| ==> t.undoStack[i] == s.undoStack[i];
    }
  }

  /** The root is never removed or replaced: its label survives every
      operation. */
  lemma RootKept(s: Snapshot, segs: seq<string>, isFile: bool)
    requires segs != []
    ensures LabelOf(CreateEffect(s, segs, isFile).1.root) == LabelOf(s.root)
    ensures LabelOf(DeleteEffect(s, segs).1.root) == LabelOf(s.root)
    ensures LabelOf(UndoEffect(s).1.root) == LabelOf(s.root)
  {
    CreateOutcome(s, segs, isFile);
    DeleteOutcome(s, segs);
    assert Walk(s.root, []).Reached?;
    assert [] <= segs;
  }
}
