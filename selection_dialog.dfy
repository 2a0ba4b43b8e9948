/**
 * The checkbox-tree selection engine of `src/components/FileSelectionDialog.tsx`:
 * the derived tri-state queries and the search filter as functions, the
 * dialog's component state (tree, selection, expansion, query) as a class
 * whose handlers replace those fields.
 */
module SelectionDialog {
  import opened Wrappers
  import opened Strings
  import opened FileTree
  import opened FileLists

  /** `INITIAL_EXPANDED_FOLDERS`: how many top-level directories a fresh scan opens. */
  const InitialExpandedFolders: nat := 2

  const ScanErrorPrefix := "Errore durante la scansione della directory: "
  const SelectAtLeastOne := "Seleziona almeno un file!"

  /** `isChecked`: a file by membership; a directory when it has files and all of them are selected. */
  predicate IsChecked(node: FileNode, checked: set<string>)
  {
    if !node.isDir then node.path in checked
    else
      var d := DescendantFiles(node);
      |d| > 0 && forall i :: 0 <= i < |d| ==> d[i] in checked
  }

  /** `descendants.filter(path => checkedPaths.has(path)).length`. */
  function CountSelected(d: seq<string>, checked: set<string>): (r: nat)
    ensures r <= |d|
  {
    if d == [] then 0
    else CountSelected(d[..|d| - 1], checked) + (if d[|d| - 1] in checked then 1 else 0)
  }

  /** `isIndeterminate`: never for a file; for a directory, some but not all descendant files selected. */
  predicate IsIndeterminate(node: FileNode, checked: set<string>)
  {
    if !node.isDir then false
    else
      var d := DescendantFiles(node);
      var c := CountSelected(d, checked);
      c > 0 && c < |d|
  }

  lemma {:induction false} CountPositiveIff(d: seq<string>, checked: set<string>)
    ensures CountSelected(d, checked) > 0 <==> exists p :: p in d && p in checked
  {
    if d != [] {
      CountPositiveIff(d[..|d| - 1], checked);
      SplitLast(d);
    }
  }

  lemma {:induction false} CountFullIff(d: seq<string>, checked: set<string>)
    ensures CountSelected(d, checked) == |d| <==> forall p :: p in d ==> p in checked
  {
    if d != [] {
      CountFullIff(d[..|d| - 1], checked);
      SplitLast(d);
    }
  }

  /** A directory is checked iff its selected-file count equals its file count and that count is positive. */
  lemma CheckedIffAllCounted(node: FileNode, checked: set<string>)
    requires node.isDir
    ensures IsChecked(node, checked) <==>
      (0 < |DescendantFiles(node)| && CountSelected(DescendantFiles(node), checked) == |DescendantFiles(node)|)
  {
    CountFullIff(DescendantFiles(node), checked);
  }

  /** A directory is indeterminate iff one of its files is selected and one is not. */
  lemma IndeterminateIff(node: FileNode, checked: set<string>)
    requires node.isDir
    ensures IsIndeterminate(node, checked) <==>
      (exists p :: p in DescendantFiles(node) && p in checked) &&
      (exists p :: p in DescendantFiles(node) && p !in checked)
  {
    CountPositiveIff(DescendantFiles(node), checked);
    CountFullIff(DescendantFiles(node), checked);
  }

  /** A directory without files is never checked and never indeterminate, whatever the selection. */
  lemma EmptyDirectoryNeitherState(node: FileNode, checked: set<string>)
    requires node.isDir && DescendantFiles(node) == []
    ensures !IsChecked(node, checked) && !IsIndeterminate(node, checked)
  {
  }

  /** The checkbox of a directory never shows checked and indeterminate at once. */
  lemma CheckedExcludesIndeterminate(node: FileNode, checked: set<string>)
    ensures !(IsChecked(node, checked) && IsIndeterminate(node, checked))
  {
    if node.isDir && IsChecked(node, checked) {
      CountFullIff(DescendantFiles(node), checked);
    }
  }

  /** The selection after `handleCheckboxChange(node, c)`. */
  function Toggle(checked: set<string>, node: FileNode, c: bool): set<string>
  {
    if c then checked + Elems(DescendantFiles(node)) else checked - Elems(DescendantFiles(node))
  }

  /**
   * Toggling sets every descendant file of the node to `c`, at any depth and
   * whatever is expanded or shown, and leaves every other path as it was.
   */
  lemma ToggleExactlyDescendants(checked: set<string>, node: FileNode, c: bool, p: string)
    ensures p in DescendantFiles(node) ==> (p in Toggle(checked, node, c) <==> c)
    ensures p !in DescendantFiles(node) ==> (p in Toggle(checked, node, c) <==> p in checked)
  {
  }

  /**
   * Toggling on then off drops the node's files; this gives back the starting
   * selection exactly when none of those files was selected before.
   */
  lemma ToggleOnThenOff(checked: set<string>, node: FileNode)
    ensures Toggle(Toggle(checked, node, true), node, false) == checked - Elems(DescendantFiles(node))
    ensures Toggle(Toggle(checked, node, true), node, false) == checked
        <==> forall p :: p in DescendantFiles(node) ==> p !in checked
  {
    var d := Elems(DescendantFiles(node));
    if Toggle(Toggle(checked, node, true), node, false) == checked {
      forall p | p in DescendantFiles(node) ensures p !in checked {
        assert p in d;
      }
    }
  }

  /** After checking a directory that has files, it shows checked and not indeterminate. */
  lemma ToggleOnChecks(checked: set<string>, node: FileNode)
    requires node.isDir && DescendantFiles(node) != []
    ensures IsChecked(node, Toggle(checked, node, true))
    ensures !IsIndeterminate(node, Toggle(checked, node, true))
  {
    CheckedExcludesIndeterminate(node, Toggle(checked, node, true));
  }

  /** After unchecking a node, none of its descendant files is selected: neither checked nor indeterminate. */
  lemma ToggleOffClears(checked: set<string>, node: FileNode)
    ensures !IsChecked(node, Toggle(checked, node, false))
    ensures !IsIndeterminate(node, Toggle(checked, node, false))
  {
    var after := Toggle(checked, node, false);
    CountPositiveIff(DescendantFiles(node), after);
    if node.isDir && DescendantFiles(node) != [] {
      assert DescendantFiles(node)[0] !in after;
    }
  }

  /** Right after select-all, every directory anywhere in the tree that has a file is checked. */
  lemma SelectAllChecksEveryDirectory(tree: seq<FileNode>, m: FileNode)
    requires m in ForestNodes(tree) && m.isDir && DescendantFiles(m) != []
    ensures IsChecked(m, AllFilePaths(tree))
  {
    SubtreeFilesInForest(tree, m);
  }

  /** The lower-cased name contains the lower-cased query. */
  predicate NameMatches(node: FileNode, query: string)
  {
    Contains(Lower(node.name), Lower(query))
  }

  /** `shouldShowNode`: every node for the empty query; otherwise its name matches or a child is shown. */
  predicate ShouldShow(node: FileNode, query: string)
    decreases node
  {
    if query == "" then true
    else NameMatches(node, query) || AnyShown(node.children, query)
  }

  /** `node.children.some(child => shouldShowNode(child, searchQuery))`. */
  predicate AnyShown(ns: seq<FileNode>, query: string)
    decreases ns
  {
    if ns == [] then false else AnyShown(ns[..|ns| - 1], query) || ShouldShow(ns[|ns| - 1], query)
  }

  /** A node is shown iff the query is empty or some node of its subtree matches it. */
  lemma {:induction false} ShownIffSubtreeMatches(node: FileNode, query: string)
    ensures ShouldShow(node, query) <==>
      query == "" || exists m :: m in Nodes(node) && NameMatches(m, query)
    decreases node
  {
    if query != "" {
      AnyShownIffForestMatches(node.children, query);
    }
  }

  lemma {:induction false} AnyShownIffForestMatches(ns: seq<FileNode>, query: string)
    requires query != ""
    ensures AnyShown(ns, query) <==> exists m :: m in ForestNodes(ns) && NameMatches(m, query)
    decreases ns
  {
    if ns != [] {
      AnyShownIffForestMatches(ns[..|ns| - 1], query);
      ShownIffSubtreeMatches(ns[|ns| - 1], query);
    }
  }

  /** `result.filter(node => node.is_dir)`: the top-level directories in tree order. */
  function TopLevelDirs(tree: seq<FileNode>): (r: seq<FileNode>)
    ensures forall i :: 0 <= i < |r| ==> r[i].isDir && r[i] in tree
    ensures forall n :: n in tree && n.isDir ==> n in r
    ensures |r| <= |tree|
  {
    if tree == [] then []
    else
      var init := tree[..|tree| - 1];
      assert tree == init + [tree[|tree| - 1]];
      TopLevelDirs(init) + (if tree[|tree| - 1].isDir then [tree[|tree| - 1]] else [])
  }

  /** The filter distributes over concatenation: directories keep their tree order. */
  lemma {:induction false} TopLevelDirsConcat(a: seq<FileNode>, b: seq<FileNode>)
    ensures TopLevelDirs(a + b) == TopLevelDirs(a) + TopLevelDirs(b)
    decreases |b|
  {
    if b == [] {
      assert a + b == a;
    } else {
      var b' := b[..|b| - 1];
      var x := b[|b| - 1];
      DropLastOfConcat(a, b);
      assert (a + b)[|a + b| - 1] == x;
      TopLevelDirsConcat(a, b');
      Assoc(TopLevelDirs(a), TopLevelDirs(b'), if x.isDir then [x] else []);
    }
  }

  /** A single node is kept exactly when it is a directory. */
  lemma TopLevelDirsSingle(n: FileNode)
    ensures TopLevelDirs([n]) == (if n.isDir then [n] else [])
  {
    assert [n][..0] == [];
  }

  /** A directory node with `m` directories before it is the `m`-th kept node. */
  lemma TopLevelDirsAt(tree: seq<FileNode>, k: nat)
    requires k < |tree| && tree[k].isDir
    ensures |TopLevelDirs(tree[..k])| < |TopLevelDirs(tree)|
    ensures TopLevelDirs(tree)[|TopLevelDirs(tree[..k])|] == tree[k]
  {
    SplitAt(tree, k);
    SplitAt(tree[k..], 1);
    assert tree[k..][..1] == [tree[k]] && tree[k..][1..] == tree[k + 1..];
    TopLevelDirsConcat(tree[..k], tree[k..]);
    TopLevelDirsConcat([tree[k]], tree[k + 1..]);
    TopLevelDirsSingle(tree[k]);
  }

  /** Each kept node is a directory of the tree with as many directories before it as its index. */
  lemma {:induction false} TopLevelDirsSource(tree: seq<FileNode>, m: nat) returns (k: nat)
    requires m < |TopLevelDirs(tree)|
    ensures k < |tree| && tree[k].isDir
    ensures |TopLevelDirs(tree[..k])| == m && TopLevelDirs(tree)[m] == tree[k]
    decreases |tree|
  {
    var init := tree[..|tree| - 1];
    var last := tree[|tree| - 1];
    assert TopLevelDirs(tree) == TopLevelDirs(init) + (if last.isDir then [last] else []);
    if m < |TopLevelDirs(init)| {
      k := TopLevelDirsSource(init, m);
      SliceOfSlice(tree, |tree| - 1, k);
      assert tree[k] == init[k];
    } else {
      k := |tree| - 1;
      assert tree[..k] == init;
    }
  }

  /**
   * A path is expanded after a successful scan exactly when it is the path of
   * a directory node with fewer than two directory nodes before it in the tree.
   */
  lemma InitialExpansionIff(tree: seq<FileNode>, p: string)
    ensures p in InitialExpansion(tree) <==>
      exists k :: 0 <= k < |tree| && tree[k].isDir && tree[k].path == p
        && |TopLevelDirs(tree[..k])| < InitialExpandedFolders
  {
    var dirs := TopLevelDirs(tree);
    if p in InitialExpansion(tree) {
      var m :| 0 <= m < |dirs| && m < InitialExpandedFolders && dirs[m].path == p;
      var k := TopLevelDirsSource(tree, m);
      assert tree[k].path == p;
    }
    forall k | 0 <= k < |tree| && tree[k].isDir && tree[k].path == p
        && |TopLevelDirs(tree[..k])| < InitialExpandedFolders
      ensures p in InitialExpansion(tree)
    {
      TopLevelDirsAt(tree, k);
    }
  }

  /** The expansion set a successful scan installs: the paths of the first two top-level directories. */
  function InitialExpansion(tree: seq<FileNode>): set<string>
  {
    var dirs := TopLevelDirs(tree);
    set i | 0 <= i < |dirs| && i < InitialExpandedFolders :: dirs[i].path
  }

  /** Effective selection: the selected paths that are files of the current tree. */
  function EffectiveSelection(checked: set<string>, tree: seq<FileNode>): set<string>
  {
    checked * AllFilePaths(tree)
  }

  datatype ConfirmOutcome =
    | Warned(message: string)
      /** `save_selection_history` is invoked with `saveKey` and `files`, then `onConfirm(files)`. */
    | Confirmed(saveKey: string, files: seq<string>)

  lemma AppendFresh(s: seq<string>, x: string)
    requires NoDuplicates(s) && x !in s
    ensures NoDuplicates(s + [x]) && Elems(s + [x]) == Elems(s) + {x}
  {
  }

  /** `Array.from(checkedPaths).filter(path => allFilePaths.has(path))`, in some enumeration order of the set. */
  method FilterToTree(checked: set<string>, all: set<string>) returns (files: seq<string>)
    ensures Elems(files) == checked * all && NoDuplicates(files)
  {
    files := [];
    var rest := checked;
    while rest != {}
      invariant rest <= checked
      invariant Elems(files) == (checked - rest) * all
      invariant NoDuplicates(files)
      decreases |rest|
    {
      var path :| path in rest;
      if path in all {
        assert path !in Elems(files);
        AppendFresh(files, path);
        files := files + [path];
      }
      rest := rest - {path};
    }
  }

  class Dialog {
    /** The `folderPath` prop: the scanned folder and the key of the stored selection. */
    const folderPath: string
    var tree: seq<FileNode>
    var loading: bool
    var searchQuery: string
    var checkedPaths: set<string>
    var expandedFolders: set<string>

    constructor (folderPath: string)
      ensures this.folderPath == folderPath
      ensures tree == [] && loading && searchQuery == ""
      ensures checkedPaths == {} && expandedFolders == {}
    {
      this.folderPath := folderPath;
      tree := [];
      loading := true;
      searchQuery := "";
      checkedPaths := {};
      expandedFolders := {};
    }

    /** `selectedCount`: how many selected paths are files of the current tree. */
    function SelectedCount(): nat
      reads this
    {
      |EffectiveSelection(checkedPaths, tree)|
    }

    /** The confirm button is disabled when nothing effective is selected. */
    predicate ConfirmDisabled()
      reads this
    {
      SelectedCount() == 0
    }

    /** The effect that calls `loadPreviousSelections`: a non-empty tree and a non-blank folder. */
    predicate WillLoadPreviousSelections()
      reads this
    {
      |tree| > 0 && Trim(folderPath) != ""
    }

    /**
     * `loadTree` given what `scan_directory` answered: on success the tree is
     * replaced and the first two top-level directories are opened; on failure a
     * notification is raised and the state is kept. Loading ends either way.
     */
    method LoadTree(scan: Result<seq<FileNode>, string>) returns (notice: Option<string>)
      modifies this
      ensures !loading
      ensures scan.Ok? ==> tree == scan.value && expandedFolders == InitialExpansion(scan.value) && notice == None
      ensures scan.Err? ==> tree == old(tree) && expandedFolders == old(expandedFolders)
      ensures scan.Err? ==> notice == Some(ScanErrorPrefix + scan.error)
      ensures checkedPaths == old(checkedPaths) && searchQuery == old(searchQuery)
    {
      loading := true;
      match scan {
        case Ok(result) =>
          tree := result;
          var dirs := TopLevelDirs(result);
          var first := if |dirs| <= InitialExpandedFolders then dirs else dirs[..InitialExpandedFolders];
          expandedFolders := set i | 0 <= i < |first| :: first[i].path;
          notice := None;
        case Err(e) =>
          notice := Some(ScanErrorPrefix + e);
      }
      loading := false;
    }

    /**
     * `loadPreviousSelections` given what `get_selections` answered for the
     * trimmed folder: a non-empty stored list replaces the selection as it is,
     * stale paths included; an empty list or an error keeps it.
     */
    method LoadPreviousSelections(stored: Result<seq<string>, string>)
      modifies this`checkedPaths
      ensures Trim(folderPath) != "" && stored.Ok? && |stored.value| > 0 ==> checkedPaths == Elems(stored.value)
      ensures !(Trim(folderPath) != "" && stored.Ok? && |stored.value| > 0) ==> checkedPaths == old(checkedPaths)
    {
      if Trim(folderPath) == "" {
        return;
      }
      if stored.Ok? && |stored.value| > 0 {
        checkedPaths := Elems(stored.value);
      }
    }

    /**
     * The effect that runs when the tree or the folder changes: it loads the
     * stored selection only once a non-empty tree is shown for a non-blank folder.
     */
    method PreviousSelectionsEffect(stored: Result<seq<string>, string>)
      modifies this`checkedPaths
      ensures WillLoadPreviousSelections() && stored.Ok? && |stored.value| > 0 ==> checkedPaths == Elems(stored.value)
      ensures !(WillLoadPreviousSelections() && stored.Ok? && |stored.value| > 0) ==> checkedPaths == old(checkedPaths)
    {
      if |tree| > 0 && Trim(folderPath) != "" {
        LoadPreviousSelections(stored);
      }
    }

    /**
     * Opening the dialog: `loadTree`, then, when the scan replaced the tree, the
     * selection effect on the new tree. A successful non-empty scan of a
     * non-blank folder with a stored list shows that list checked; a failed
     * scan leaves the tree unchanged, so the effect does not run again.
     */
    method Open(scan: Result<seq<FileNode>, string>, stored: Result<seq<string>, string>) returns (notice: Option<string>)
      modifies this
      ensures scan.Ok? && |scan.value| > 0 && Trim(folderPath) != "" && stored.Ok? && |stored.value| > 0 ==>
        checkedPaths == Elems(stored.value)
      ensures scan.Ok? && |scan.value| == 0 ==> checkedPaths == old(checkedPaths)
      ensures scan.Ok? && !(|scan.value| > 0 && Trim(folderPath) != "" && stored.Ok? && |stored.value| > 0) ==>
        checkedPaths == old(checkedPaths)
      ensures scan.Ok? ==> tree == scan.value && expandedFolders == InitialExpansion(scan.value) && notice == None
      ensures scan.Err? ==> tree == old(tree) && expandedFolders == old(expandedFolders)
      ensures scan.Err? ==> checkedPaths == old(checkedPaths) && notice == Some(ScanErrorPrefix + scan.error)
      ensures searchQuery == old(searchQuery)
      ensures !loading
    {
      notice := LoadTree(scan);
      if scan.Ok? {
        PreviousSelectionsEffect(stored);
      }
    }

    /** `handleCheckboxChange`: adds or deletes each descendant file path of the node in turn. */
    method HandleCheckboxChange(node: FileNode, checked: bool)
      modifies this`checkedPaths
      ensures checkedPaths == Toggle(old(checkedPaths), node, checked)
    {
      var newChecked := checkedPaths;
      var descendantPaths := DescendantFiles(node);
      for i := 0 to |descendantPaths|
        invariant checked ==> newChecked == checkedPaths + Elems(descendantPaths[..i])
        invariant !checked ==> newChecked == checkedPaths - Elems(descendantPaths[..i])
      {
        assert Elems(descendantPaths[..i + 1]) == Elems(descendantPaths[..i]) + {descendantPaths[i]} by {
          assert descendantPaths[..i + 1] == descendantPaths[..i] + [descendantPaths[i]];
        }
        if checked {
          newChecked := newChecked + {descendantPaths[i]};
        } else {
          newChecked := newChecked - {descendantPaths[i]};
        }
      }
      assert descendantPaths[..|descendantPaths|] == descendantPaths;
      checkedPaths := newChecked;
    }

    /** `handleSelectAll`: the selection becomes every file of the tree, shown or not. */
    method HandleSelectAll()
      modifies this`checkedPaths
      ensures checkedPaths == AllFilePaths(tree)
    {
      checkedPaths := CollectFilePaths(tree, {});
    }

    /** `handleSelectNone`. */
    method HandleSelectNone()
      modifies this`checkedPaths
      ensures checkedPaths == {}
    {
      checkedPaths := {};
    }

    /** `toggleExpanded`: flips the membership of one path and of no other. */
    method ToggleExpanded(path: string)
      modifies this`expandedFolders
      ensures path in expandedFolders <==> path !in old(expandedFolders)
      ensures forall q :: q != path ==> (q in expandedFolders <==> q in old(expandedFolders))
    {
      var newExpanded := expandedFolders;
      if path in newExpanded {
        newExpanded := newExpanded - {path};
      } else {
        newExpanded := newExpanded + {path};
      }
      expandedFolders := newExpanded;
    }

    /** Expand-all: every directory path of the tree, at any depth. */
    method HandleExpandAll()
      modifies this`expandedFolders
      ensures expandedFolders == AllDirPaths(tree)
    {
      expandedFolders := CollectDirPaths(tree, {});
    }

    /** Collapse-all. */
    method HandleCollapseAll()
      modifies this`expandedFolders
      ensures expandedFolders == {}
    {
      expandedFolders := {};
    }

    /** The search box: only the query changes, so expansion and selection survive a search. */
    method SetSearchQuery(query: string)
      modifies this`searchQuery
      ensures searchQuery == query
    {
      searchQuery := query;
    }

    /**
     * `handleConfirm`: the selected paths that are files of the current tree;
     * none gives a warning and no call, otherwise the list is saved under the
     * trimmed folder path and handed to `onConfirm`.
     */
    method HandleConfirm() returns (outcome: ConfirmOutcome)
      ensures outcome.Warned? <==> ConfirmDisabled()
      ensures outcome.Warned? ==> outcome.message == SelectAtLeastOne
      ensures outcome.Confirmed? ==> outcome.saveKey == Trim(folderPath)
      ensures outcome.Confirmed? ==>
        Elems(outcome.files) == EffectiveSelection(checkedPaths, tree)
        && NoDuplicates(outcome.files) && |outcome.files| == SelectedCount()
    {
      var all := CollectFilePaths(tree, {});
      var selectedFiles := FilterToTree(checkedPaths, all);
      NoDuplicatesCardinality(selectedFiles);
      assert Elems(selectedFiles) == EffectiveSelection(checkedPaths, tree);
      assert |selectedFiles| == SelectedCount();
      if |selectedFiles| == 0 {
        outcome := Warned(SelectAtLeastOne);
      } else {
        outcome := Confirmed(Trim(folderPath), selectedFiles);
      }
    }
  }
}
