/**
 * The scanned directory tree shared by the scanner and the selection dialog
 * (`FileNode` in `ui/src/types.ts` and `src-tauri/src/commands/scan.rs`).
 * An absent `children` list and an empty one behave identically everywhere
 * the program reads them, and the scanner never emits an empty list, so the
 * model keeps a plain sequence.
 */
module FileTree {
  import opened FileLists

  datatype FileNode = FileNode(name: string, path: string, isDir: bool, children: seq<FileNode>)

  /**
   * `getDescendantFilePaths`: the node's own path when it is a file, then the
   * descendant files of each child in order, whatever the node's kind.
   */
  function DescendantFiles(n: FileNode): seq<string>
    decreases n
  {
    (if !n.isDir then [n.path] else []) + ForestFiles(n.children)
  }

  function ForestFiles(ns: seq<FileNode>): seq<string>
    decreases ns
  {
    if ns == [] then [] else ForestFiles(ns[..|ns| - 1]) + DescendantFiles(ns[|ns| - 1])
  }

  /** `allFilePaths`: every file path of the whole forest. */
  function AllFilePaths(tree: seq<FileNode>): set<string>
  {
    Elems(ForestFiles(tree))
  }

  /** Every directory path of a subtree: the set the expand-all button builds. */
  function NodeDirPaths(n: FileNode): set<string>
    decreases n
  {
    (if n.isDir then {n.path} else {}) + AllDirPaths(n.children)
  }

  function AllDirPaths(ns: seq<FileNode>): set<string>
    decreases ns
  {
    if ns == [] then {} else AllDirPaths(ns[..|ns| - 1]) + NodeDirPaths(ns[|ns| - 1])
  }

  /** Every node of a subtree in pre-order: the reference the traversals are checked against. */
  function Nodes(n: FileNode): seq<FileNode>
    decreases n
  {
    [n] + ForestNodes(n.children)
  }

  function ForestNodes(ns: seq<FileNode>): seq<FileNode>
    decreases ns
  {
    if ns == [] then [] else ForestNodes(ns[..|ns| - 1]) + Nodes(ns[|ns| - 1])
  }

  /** The files reached by `getDescendantFilePaths` are exactly the file nodes of the subtree. */
  lemma {:induction false} DescendantFilesAreSubtreeFiles(n: FileNode, p: string)
    ensures p in DescendantFiles(n) <==> exists m :: m in Nodes(n) && !m.isDir && m.path == p
    decreases n
  {
    ForestFilesAreForestFiles(n.children, p);
  }

  lemma {:induction false} ForestFilesAreForestFiles(ns: seq<FileNode>, p: string)
    ensures p in ForestFiles(ns) <==> exists m :: m in ForestNodes(ns) && !m.isDir && m.path == p
    decreases ns
  {
    if ns != [] {
      ForestFilesAreForestFiles(ns[..|ns| - 1], p);
      DescendantFilesAreSubtreeFiles(ns[|ns| - 1], p);
    }
  }

  /** The expand-all set holds exactly the directory nodes' paths. */
  lemma {:induction false} DirPathsAreSubtreeDirs(n: FileNode, p: string)
    ensures p in NodeDirPaths(n) <==> exists m :: m in Nodes(n) && m.isDir && m.path == p
    decreases n
  {
    ForestDirPathsAreForestDirs(n.children, p);
  }

  lemma {:induction false} ForestDirPathsAreForestDirs(ns: seq<FileNode>, p: string)
    ensures p in AllDirPaths(ns) <==> exists m :: m in ForestNodes(ns) && m.isDir && m.path == p
    decreases ns
  {
    if ns != [] {
      ForestDirPathsAreForestDirs(ns[..|ns| - 1], p);
      DirPathsAreSubtreeDirs(ns[|ns| - 1], p);
    }
  }

  /** A node anywhere in the forest has all its descendant files among the forest's files. */
  lemma {:induction false} SubtreeFilesInForest(ns: seq<FileNode>, m: FileNode)
    requires m in ForestNodes(ns)
    ensures Elems(DescendantFiles(m)) <= AllFilePaths(ns)
    decreases ns
  {
    var last := ns[|ns| - 1];
    if m in ForestNodes(ns[..|ns| - 1]) {
      SubtreeFilesInForest(ns[..|ns| - 1], m);
    } else {
      SubtreeFilesInNode(last, m);
    }
  }

  lemma {:induction false} SubtreeFilesInNode(n: FileNode, m: FileNode)
    requires m in Nodes(n)
    ensures Elems(DescendantFiles(m)) <= Elems(DescendantFiles(n))
    decreases n
  {
    if m != n {
      SubtreeFilesInForest(n.children, m);
    }
  }

  /**
   * `collectPaths` inside `allFilePaths`: walks the nodes in order, adding each
   * file's path and descending into every node's children.
   */
  method CollectFilePaths(nodes: seq<FileNode>, paths: set<string>) returns (r: set<string>)
    ensures r == paths + AllFilePaths(nodes)
    decreases nodes
  {
    r := paths;
    for i := 0 to |nodes|
      invariant r == paths + AllFilePaths(nodes[..i])
    {
      var node := nodes[i];
      if !node.isDir {
        r := r + {node.path};
      }
      r := CollectFilePaths(node.children, r);
      assert nodes[..i + 1][..i] == nodes[..i];
      ElemsConcat(ForestFiles(nodes[..i]), DescendantFiles(node));
      ElemsConcat(if !node.isDir then [node.path] else [], ForestFiles(node.children));
    }
    assert nodes[..|nodes|] == nodes;
  }

  /** `collect` of the expand-all button: adds each directory's path, descending into children. */
  method CollectDirPaths(nodes: seq<FileNode>, paths: set<string>) returns (r: set<string>)
    ensures r == paths + AllDirPaths(nodes)
    decreases nodes
  {
    r := paths;
    for i := 0 to |nodes|
      invariant r == paths + AllDirPaths(nodes[..i])
    {
      var node := nodes[i];
      if node.isDir {
        r := r + {node.path};
      }
      r := CollectDirPaths(node.children, r);
      assert nodes[..i + 1][..i] == nodes[..i];
    }
    assert nodes[..|nodes|] == nodes;
  }
}
