/** The file system object: a root directory and a stack of deleted nodes,
    with create, delete, lookup, display and undo. Each mutating method
    takes the simulator's steps one by one and is proved to have the effect
    that Operations states for it. */
module Simulator {
  import opened Paths
  import opened Tree
  import opened Operations
  import TreeDisplay

  class FileSystem {
    var root: Node
    /** Deleted subtrees; the top of the stack is the last element. */
    var undoStack: seq<Node>

    ghost function State(): Snapshot
      reads this
    {
      Snapshot(root, undoStack)
    }

    ghost predicate Valid()
      reads this
    {
      Consistent(State())
    }

    /** A new file system holds only the root directory "/". */
    constructor ()
      ensures Valid()
      ensures State() == Initial()
    {
      root := NewNode(ROOT_NAME, false);
      undoStack := [];
    }

    /** `navigateTo`: walk the children maps from the root, one segment at a
        time; report the first segment that is missing. */
    method NavigateTo(path: string) returns (r: Result<Node>)
      ensures r == Navigate(root, Segments(path))
    {
      var components := SplitPath(path);
      var current := root;
      for i := 0 to |components|
        invariant Walk(root, components) == Walk(current, components[i..])
      {
        assert components[i..][0] == components[i] && components[i..][1..] == components[i + 1..];
        if components[i] !in current.children {
          return Err(NotFound(components[i]));
        }
        current := current.children[components[i]];
      }
      return Ok(current);
    }

    /** `create`: a path without segments has no last component, and `create`
        does not guard against that, so callers must supply one. */
    method Create(path: string, isFile: bool) returns (status: Status)
      requires Valid()
      requires Segments(path) != []
      modifies this
      ensures Valid()
      ensures (status, State()) == CreateEffect(old(State()), Segments(path), isFile)
    {
      RootPath();
      var start := NavigateTo([SEPARATOR]);
      var parent := start.value;
      var components := SplitPath(path);
      var newName := components[|components| - 1];
      components := components[..|components| - 1];
      for i := 0 to |components|
        invariant Walk(root, components) == Walk(parent, components[i..])
      {
        assert components[i..][0] == components[i] && components[i..][1..] == components[i + 1..];
        if components[i] !in parent.children {
          return Failed(InvalidPathComponent(components[i]));
        }
        parent := parent.children[components[i]];
      }
      if newName in parent.children {
        return Failed(AlreadyExists(newName));
      }
      CreateKeepsConsistent(State(), Segments(path), isFile);
      root := ReplaceAt(root, components, parent.(children := parent.children[newName := NewNode(newName, isFile)]));
      status := Done;
    }

    /** `deleteNode`: detach the target subtree and push it on the undo
        stack. As for create, the path must have a last component. */
    method DeleteNode(path: string) returns (status: Status)
      requires Valid()
      requires Segments(path) != []
      modifies this
      ensures Valid()
      ensures (status, State()) == DeleteEffect(old(State()), Segments(path))
    {
      RootPath();
      var start := NavigateTo([SEPARATOR]);
      var parent := start.value;
      var components := SplitPath(path);
      var targetName := components[|components| - 1];
      components := components[..|components| - 1];
      for i := 0 to |components|
        invariant Walk(root, components) == Walk(parent, components[i..])
      {
        assert components[i..][0] == components[i] && components[i..][1..] == components[i + 1..];
        if components[i] !in parent.children {
          return Failed(InvalidPathComponent(components[i]));
        }
        parent := parent.children[components[i]];
      }
      if targetName !in parent.children {
        return Failed(NotFound(targetName));
      }
      DeleteKeepsConsistent(State(), Segments(path));
      undoStack := undoStack + [parent.children[targetName]];
      root := ReplaceAt(root, components, parent.(children := parent.children - {targetName}));
      status := Done;
    }

    /** `display()`: the rendering of the whole tree. It starts with the root
        line "Dir: /" and has one line per reachable node, in pre-order,
        indented by depth. */
    ghost function Display(): (lines: seq<string>)
      reads this
      requires Valid()
      ensures lines != [] && lines[0] == "Dir: /"
      ensures |lines| == |TreeDisplay.Preorder(root)|
      ensures forall i :: 0 <= i < |lines| ==>
        var p := TreeDisplay.Preorder(root)[i];
        Walk(root, p).Reached? && lines[i] == TreeDisplay.Line(TreeDisplay.Indent(|p|), Walk(root, p).node)
    {
      TreeDisplay.RenderLines(root, "");
      TreeDisplay.Render(root, "")
    }

    /** `undoDelete`: pop the most recently deleted node and hang it under
        the root by its own name, overwriting a child of that name. */
    method UndoDelete() returns (status: Status)
      requires Valid()
      modifies this
      ensures Valid()
      ensures (status, State()) == UndoEffect(old(State()))
    {
      if undoStack != [] {
        UndoKeepsConsistent(State());
        var node := undoStack[|undoStack| - 1];
        undoStack := undoStack[..|undoStack| - 1];
        RootPath();
        var start := NavigateTo([SEPARATOR]);
        var parent := start.value;
        root := parent.(children := parent.children[node.name := node]);
        status := Done;
      } else {
        status := Failed(NothingToUndo);
      }
    }
  }
}
