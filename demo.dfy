/** The simulator's demonstration script, with what it shows
    stated as assertions: six creations, a deletion, and an undo that brings
    the file back under the root rather than under its old directory. */
module Demo {
  import opened Paths
  import opened Tree
  import opened Operations
  import opened Simulator

  /** `paths` is exactly the set of paths that lead to a node. */
  ghost predicate Reachable(root: Node, paths: set<seq<string>>) {
    forall q {:trigger Walk(root, q)} :: Walk(root, q).Reached? <==> q in paths
  }

  lemma CreateStep(s: Snapshot, segs: seq<string>, isFile: bool, paths: set<seq<string>>)
    requires segs != [] && Reachable(s.root, paths)
    requires Parents(segs) in paths && segs !in paths
    ensures CreateEffect(s, segs, isFile).0 == Done
    ensures Reachable(CreateEffect(s, segs, isFile).1.root, paths + {segs})
  {
    CreateOutcome(s, segs, isFile);
  }

  lemma DeleteStep(s: Snapshot, segs: seq<string>, paths: set<seq<string>>)
    requires segs != [] && Reachable(s.root, paths) && segs in paths
    ensures DeleteEffect(s, segs).0 == Done
    ensures DeleteEffect(s, segs).1.undoStack == s.undoStack + [Walk(s.root, segs).node]
    ensures Reachable(DeleteEffect(s, segs).1.root, set q | q in paths && !(segs <= q))
  {
    DeleteOutcome(s, segs);
  }

  /** Appending "/name" to a path appends one segment. */
  lemma Child(parent: string, name: string)
    requires IsSegment(name)
    ensures Segments(parent + [SEPARATOR] + name) == Segments(parent) + [name]
  {
    SegmentsAtSeparator(parent, name);
    ScanPlain(name, []);
    assert [] + name == name;
  }

  /** One `create` of the script: the path "parent/name", whose parent
      exists and which is not taken yet. It succeeds and adds exactly that
      path. */
  method CreateChild(fs: FileSystem, parent: string, name: string, isFile: bool,
                     ghost segs: seq<string>, ghost paths: set<seq<string>>)
    returns (path: string)
    requires fs.Valid() && Reachable(fs.root, paths)
    requires segs != [] && Segments(parent) == Parents(segs) && Parents(segs) in paths
    requires IsSegment(name) && name == Last(segs) && segs !in paths
    modifies fs
    ensures Segments(path) == segs
    ensures fs.Valid() && Reachable(fs.root, paths + {segs})
    ensures fs.undoStack == old(fs.undoStack)
  {
    path := parent + [SEPARATOR] + name;
    Child(parent, name);
    assert Parents(segs) + [name] == segs;
    CreateStep(fs.State(), segs, isFile, paths);
    var st := fs.Create(path, isFile);
    assert st == Done;
  }

  /** One `navigateTo` of the script: it finds exactly the paths that exist. */
  method NavigateChecked(fs: FileSystem, path: string,
                         ghost segs: seq<string>, ghost paths: set<seq<string>>)
    returns (found: bool)
    requires Reachable(fs.root, paths) && Segments(path) == segs
    ensures found <==> segs in paths
  {
    var r := fs.NavigateTo(path);
    found := r.Ok?;
  }

  /** One `deleteNode` of the script, on a path that exists: it succeeds,
      removes the paths through it and pushes a node of that name. */
  method DeleteChecked(fs: FileSystem, path: string,
                       ghost segs: seq<string>, ghost paths: set<seq<string>>)
    requires fs.Valid()
    requires Reachable(fs.root, paths)
    requires Segments(path) == segs
    requires segs in paths && segs != []
    modifies fs
    ensures fs.Valid()
    ensures Reachable(fs.root, set q | q in paths && !(segs <= q))
    ensures fs.undoStack == old(fs.undoStack) + [Walk(old(fs.root), segs).node]
    ensures fs.undoStack[|fs.undoStack| - 1].name == Last(segs)
  {
    DeleteStep(fs.State(), segs, paths);
    WellNamedWalk(fs.root, segs);
    var st := fs.DeleteNode(path);
    assert st == Done;
  }

  /** The script's `undoDelete`: the top node comes back under the root by
      its name; paths under the other root children are as they were. */
  method UndoChecked(fs: FileSystem, ghost name: string, ghost paths: set<seq<string>>)
    requires fs.Valid()
    requires Reachable(fs.root, paths)
    requires fs.undoStack != [] && fs.undoStack[|fs.undoStack| - 1].name == name
    modifies fs
    ensures fs.Valid()
    ensures Walk(fs.root, [name]) == Reached(old(fs.undoStack[|fs.undoStack| - 1]))
    ensures forall q {:trigger Walk(fs.root, q)} ::
      q != [] && q[0] != name ==> (Walk(fs.root, q).Reached? <==> q in paths)
  {
    UndoOutcome(fs.State());
    var st := fs.UndoDelete();
    assert st == Done;
  }

  /** The six paths the script creates, with the root. */
  ghost function ScriptPaths(): set<seq<string>> {
    {[], ["documents"], ["documents", "photos"], ["music"],
     ["documents", "file1.txt"], ["documents", "photos", "photo1.png"], ["music", "song1.mp3"]}
  }

  /** The creation phase of the script: the six creations succeed in order
      and the tree then holds exactly the created paths. */
  method MakeTree() returns (fs: FileSystem, file1: string)
    ensures fresh(fs)
    ensures fs.Valid() && Reachable(fs.root, ScriptPaths()) && fs.undoStack == []
    ensures Segments(file1) == ["documents", "file1.txt"]
  {
    fs := new FileSystem();
    ghost var paths: set<seq<string>> := {[]};
    assert Reachable(fs.root, paths);
    assert Segments("") == [];
    var documents := CreateChild(fs, "", "documents", false, ["documents"], paths);
    paths := paths + {["documents"]};
    var photos := CreateChild(fs, documents, "photos", false, ["documents", "photos"], paths);
    paths := paths + {["documents", "photos"]};
    var music := CreateChild(fs, "", "music", false, ["music"], paths);
    paths := paths + {["music"]};
    file1 := CreateChild(fs, documents, "file1.txt", true, ["documents", "file1.txt"], paths);
    paths := paths + {["documents", "file1.txt"]};
    var photo1 := CreateChild(fs, photos, "photo1.png", true, ["documents", "photos", "photo1.png"], paths);
    paths := paths + {["documents", "photos", "photo1.png"]};
    var song1 := CreateChild(fs, music, "song1.mp3", true, ["music", "song1.mp3"], paths);
    paths := paths + {["music", "song1.mp3"]};
  }

  /** The file "/documents/file1.txt" is a leaf of the script's tree: no
      created path lies below it. */
  lemma File1Leaf(root: Node)
    requires Reachable(root, ScriptPaths())
    ensures Walk(root, ["documents", "file1.txt"]).Reached?
    ensures Walk(root, ["documents", "file1.txt"]).node.children == map[]
  {
    var segs := ["documents", "file1.txt"];
    forall x ensures x !in Walk(root, segs).node.children {
      WalkAppend(root, segs, [x]);
      assert (segs + [x])[1] == "file1.txt";
    }
  }

  /** The script after the creations: deleting "/documents/file1.txt" makes
      it unreachable; the undo brings it back as "/file1.txt", not at its
      old place. */
  method DemoScript() {
    var fs, file1 := MakeTree();
    ghost var fS := ["documents", "file1.txt"];
    ghost var paths := ScriptPaths();
    var found := NavigateChecked(fs, file1, fS, paths);
    assert found;

    File1Leaf(fs.root);
    DeleteChecked(fs, file1, fS, paths);
    paths := set q | q in paths && !(fS <= q);
    found := NavigateChecked(fs, file1, fS, paths);
    assert !found;

    UndoChecked(fs, "file1.txt", paths);
    assert Walk(fs.root, ["file1.txt"]).node.children == map[];
    var restored := "" + [SEPARATOR] + "file1.txt";
    assert Segments("") == [];
    Child("", "file1.txt");
    var r := fs.NavigateTo(restored);
    assert r.Ok?;
    r := fs.NavigateTo(file1);
    assert r.Err?;
  }
}
