/**
 * `src-tauri/src/commands/scan.rs`: the shaping rules that turn a directory
 * on disk into the `FileNode` forest. The filesystem is replaced by an
 * abstract listing that records, for every directory the walk would visit,
 * what `canonicalize`, `read_dir` and `metadata` would answer.
 */
module Scan {
  import opened Wrappers
  import opened Strings
  import opened FileTree

  /** `IGNORED_DIRS`, compared against the lower-cased directory name. */
  const IgnoredDirs: seq<string> := [
    "node_modules", "venv", ".venv", "env", ".env", "__pycache__", ".pytest_cache",
    "target", "dist", "build", ".next", ".nuxt", ".cache", ".idea", ".vscode", ".git",
    ".svn", ".hg", ".DS_Store", "vendor", ".bundle", ".sass-cache", "coverage",
    ".nyc_output", ".gradle", ".mvn", "bin", "obj", ".vs"
  ]

  /** The depth limit of the root call `scan_directory_recursive(.., 0, 6)`. */
  const MaxDepth: nat := 6

  /** What walking one directory finds. */
  datatype Listing =
    | Unresolvable                 // `canonicalize` fails
    | OutsideBase                  // resolves outside the scanned root
    | Unreadable(error: string)    // `read_dir` fails
    | Entries(entries: seq<DirEntry>)

  datatype DirEntry =
    | BadEntry                     // the directory iterator yields an error
      /** `fileName` is `file_name()` when it is valid UTF-8; `path` is the lossy path string. */
    | Entry(fileName: Option<string>, path: string, kind: EntryKind)

  datatype EntryKind =
    | NoMetadata                   // `metadata()` fails
    | File
    | Directory(contents: Listing)

  /** `should_ignore_dir`. */
  predicate ShouldIgnoreDir(name: string)
  {
    Lower(name) in IgnoredDirs
  }

  /** The mixed-case ".DS_Store" entry can never match a lower-cased name, so it ignores nothing. */
  lemma DsStoreEntryIsDead(name: string)
    ensures ShouldIgnoreDir(name) <==> Lower(name) in IgnoredDirs && Lower(name) != ".DS_Store"
  {
    if |name| == |".DS_Store"| {
      assert Lower(name)[1] != 'D';
    }
  }

  predicate IsHidden(e: DirEntry)
  {
    e.Entry? && e.fileName.Some? && StartsWith(e.fileName.value, ".")
  }

  /** The node name: the file name, or the whole path when it is not valid UTF-8. */
  function EntryName(e: DirEntry): string
    requires e.Entry?
  {
    if e.fileName.Some? then e.fileName.value else e.path
  }

  /** What `scan_directory_recursive` appends for one directory at `depth`. */
  function ScanDir(l: Listing, depth: nat, maxDepth: nat): seq<FileNode>
    decreases l
  {
    if depth >= maxDepth then []
    else match l
      case Entries(es) => ScanEntries(es, depth, maxDepth)
      case _ => []
  }

  function ScanEntries(es: seq<DirEntry>, depth: nat, maxDepth: nat): seq<FileNode>
    decreases es
  {
    if es == [] then []
    else ScanEntries(es[..|es| - 1], depth, maxDepth) + EntryNodes(es[|es| - 1], depth, maxDepth)
  }

  /** The node one entry contributes: none for a bad, hidden, metadata-less or ignored entry. */
  function EntryNodes(e: DirEntry, depth: nat, maxDepth: nat): seq<FileNode>
    decreases e
  {
    match e
    case BadEntry => []
    case Entry(_, path, kind) =>
      if IsHidden(e) then []
      else match kind
        case NoMetadata => []
        case File => [FileNode(EntryName(e), path, false, [])]
        case Directory(contents) =>
          if ShouldIgnoreDir(EntryName(e)) then []
          else [FileNode(EntryName(e), path, true, ScanDir(contents, depth + 1, maxDepth))]
  }

  /** The loop of `scan_directory_recursive`, pushing onto `result` entry by entry. */
  method ScanDirectoryRecursive(l: Listing, depth: nat, maxDepth: nat) returns (result: seq<FileNode>)
    ensures result == ScanDir(l, depth, maxDepth)
    decreases l
  {
    result := [];
    if depth >= maxDepth {
      return;
    }
    if !l.Entries? {
      return;
    }
    var entries := l.entries;
    for i := 0 to |entries|
      invariant result == ScanEntries(entries[..i], depth, maxDepth)
    {
      assert entries[..i + 1][..i] == entries[..i];
      var entry := entries[i];
      if entry.BadEntry? {
        continue;
      }
      if IsHidden(entry) {
        continue;
      }
      var name := EntryName(entry);
      if entry.kind.NoMetadata? {
        continue;
      }
      var isDir := entry.kind.Directory?;
      if isDir && ShouldIgnoreDir(name) {
        continue;
      }
      if isDir {
        var children := ScanDirectoryRecursive(entry.kind.contents, depth + 1, maxDepth);
        result := result + [FileNode(name, entry.path, true, children)];
      } else {
        result := result + [FileNode(name, entry.path, false, [])];
      }
    }
    assert entries[..|entries|] == entries;
  }

  /** How many levels of nodes a forest nests. */
  function Height(ns: seq<FileNode>): nat
    decreases ns
  {
    if ns == [] then 0
    else
      var h := Height(ns[..|ns| - 1]);
      var last := 1 + Height(ns[|ns| - 1].children);
      if h >= last then h else last
  }

  lemma {:induction false} HeightBound(ns: seq<FileNode>, bound: nat)
    requires forall i :: 0 <= i < |ns| ==> 1 + Height(ns[i].children) <= bound
    ensures Height(ns) <= bound
    decreases ns
  {
    if ns != [] {
      HeightBound(ns[..|ns| - 1], bound);
    }
  }

  /** Below depth `depth` the walk nests at most `maxDepth - depth` levels; from the root, six. */
  lemma {:induction false} ScanDepthBound(l: Listing, depth: nat, maxDepth: nat)
    ensures depth >= maxDepth ==> ScanDir(l, depth, maxDepth) == []
    ensures Height(ScanDir(l, depth, maxDepth)) <= if depth >= maxDepth then 0 else maxDepth - depth
    decreases l
  {
    if depth < maxDepth && l.Entries? {
      ScanEntriesDepthBound(l.entries, depth, maxDepth);
    }
  }

  lemma {:induction false} ScanEntriesDepthBound(es: seq<DirEntry>, depth: nat, maxDepth: nat)
    requires depth < maxDepth
    ensures Height(ScanEntries(es, depth, maxDepth)) <= maxDepth - depth
    decreases es
  {
    if es != [] {
      var init := ScanEntries(es[..|es| - 1], depth, maxDepth);
      var e := es[|es| - 1];
      var last := EntryNodes(e, depth, maxDepth);
      ScanEntriesDepthBound(es[..|es| - 1], depth, maxDepth);
      if e.Entry? && e.kind.Directory? {
        ScanDepthBound(e.kind.contents, depth + 1, maxDepth);
      }
      var all := init + last;
      forall i | 0 <= i < |all|
        ensures 1 + Height(all[i].children) <= maxDepth - depth
      {
        if i < |init| {
          HeightOfMember(init, i);
        }
      }
      HeightBound(all, maxDepth - depth);
    }
  }

  lemma {:induction false} HeightOfMember(ns: seq<FileNode>, i: nat)
    requires i < |ns|
    ensures 1 + Height(ns[i].children) <= Height(ns)
    decreases ns
  {
    if i < |ns| - 1 {
      HeightOfMember(ns[..|ns| - 1], i);
    }
  }

  /** The shape every scanned node has. */
  predicate WellShaped(m: FileNode)
  {
    && (!m.isDir ==> m.children == [])
    && (m.isDir ==> !ShouldIgnoreDir(m.name))
    && (StartsWith(m.name, ".") ==> m.name == m.path)
  }

  /**
   * Every node anywhere in a scan result is well shaped: files carry no
   * children, no directory is on the ignore list, and a name starting with '.'
   * only appears when it is the path standing in for a non-UTF-8 file name.
   */
  lemma {:induction false} ScanShape(l: Listing, depth: nat, maxDepth: nat)
    ensures forall m :: m in ForestNodes(ScanDir(l, depth, maxDepth)) ==> WellShaped(m)
    decreases l
  {
    if depth < maxDepth && l.Entries? {
      ScanEntriesShape(l.entries, depth, maxDepth);
    }
  }

  lemma {:induction false} ScanEntriesShape(es: seq<DirEntry>, depth: nat, maxDepth: nat)
    ensures forall m :: m in ForestNodes(ScanEntries(es, depth, maxDepth)) ==> WellShaped(m)
    decreases es
  {
    if es != [] {
      var init := ScanEntries(es[..|es| - 1], depth, maxDepth);
      var e := es[|es| - 1];
      var last := EntryNodes(e, depth, maxDepth);
      ScanEntriesShape(es[..|es| - 1], depth, maxDepth);
      ForestNodesConcat(init, last);
      if last != [] {
        var n := last[0];
        assert last == [n];
        assert ForestNodes(last) == Nodes(n) by {
          assert last[..0] == [];
        }
        if e.kind.Directory? {
          ScanShape(e.kind.contents, depth + 1, maxDepth);
        }
        assert WellShaped(n);
      }
    }
  }

  lemma {:induction false} ForestNodesConcat(a: seq<FileNode>, b: seq<FileNode>)
    ensures ForestNodes(a + b) == ForestNodes(a) + ForestNodes(b)
    decreases b
  {
    if b == [] {
      assert a + b == a;
    } else {
      ForestNodesConcat(a, b[..|b| - 1]);
      DropLastOfConcat(a, b);
    }
  }

  /** The three outcomes of `validate_directory_path`'s filesystem queries. */
  datatype PathStatus =
    | DoesNotExist
    | NotADirectory
      /** an existing directory, with what `canonicalize` answers */
    | IsDirectory(canonical: Result<string, string>)

  /** `validate_directory_path`. */
  function ValidateDirectoryPath(dirPath: string, status: PathStatus): (r: Result<string, string>)
    ensures status.DoesNotExist? ==> r == Err("Directory does not exist: " + dirPath)
    ensures status.NotADirectory? ==> r == Err("Path is not a directory: " + dirPath)
    ensures r.Ok? <==> status.IsDirectory? && status.canonical.Ok?
  {
    match status
    case DoesNotExist => Err("Directory does not exist: " + dirPath)
    case NotADirectory => Err("Path is not a directory: " + dirPath)
    case IsDirectory(Ok(p)) => Ok(p)
    case IsDirectory(Err(e)) => Err("Failed to canonicalize path: " + e)
  }

  datatype Ordering = LessThan | EqualTo | GreaterThan

  /** `str::cmp` on the lower-cased names. */
  function CompareStrings(a: string, b: string): Ordering
  {
    if a == b then EqualTo else if LessEq(a, b) then LessThan else GreaterThan
  }

  /** The root comparator: directories before files, then by lower-cased name. */
  function CompareRoot(a: FileNode, b: FileNode): Ordering
  {
    match (a.isDir, b.isDir)
    case (true, false) => LessThan
    case (false, true) => GreaterThan
    case _ => CompareStrings(Lower(a.name), Lower(b.name))
  }

  predicate RootLessEq(a: FileNode, b: FileNode)
  {
    CompareRoot(a, b) != GreaterThan
  }

  lemma CompareStringsNotGreater(x: string, y: string)
    ensures CompareStrings(x, y) != GreaterThan <==> LessEq(x, y)
  {
    LessEqTotal(x, x);
  }

  lemma RootLessEqTotal(a: FileNode, b: FileNode)
    ensures RootLessEq(a, b) || RootLessEq(b, a)
  {
    CompareStringsNotGreater(Lower(a.name), Lower(b.name));
    CompareStringsNotGreater(Lower(b.name), Lower(a.name));
    LessEqTotal(Lower(a.name), Lower(b.name));
  }

  lemma RootLessEqTransitive(a: FileNode, b: FileNode, c: FileNode)
    requires RootLessEq(a, b) && RootLessEq(b, c)
    ensures RootLessEq(a, c)
  {
    if a.isDir == b.isDir && b.isDir == c.isDir {
      CompareStringsNotGreater(Lower(a.name), Lower(b.name));
      CompareStringsNotGreater(Lower(b.name), Lower(c.name));
      CompareStringsNotGreater(Lower(a.name), Lower(c.name));
      LessEqTransitive(Lower(a.name), Lower(b.name), Lower(c.name));
    }
  }

  predicate SortedForRoot(s: seq<FileNode>)
  {
    forall i, j :: 0 <= i < j < |s| ==> RootLessEq(s[i], s[j])
  }

  /** `root_nodes.sort_by(..)` as an in-place insertion sort over the top-level nodes. */
  method SortRootNodes(a: array<FileNode>)
    modifies a
    ensures SortedForRoot(a[..])
    ensures multiset(a[..]) == old(multiset(a[..]))
  {
    for i := 0 to a.Length
      invariant SortedForRoot(a[..i])
      invariant multiset(a[..]) == old(multiset(a[..]))
    {
      InsertLast(a, i);
    }
    assert a[..a.Length] == a[..];
  }

  /** `s[..i + 1]` is sorted apart from position `j`, and `s[j]` is at most everything to its right. */
  predicate InsertingAt(s: seq<FileNode>, i: nat, j: nat)
    requires j <= i < |s|
  {
    && (forall k, l :: 0 <= k < l <= i && k != j && l != j ==> RootLessEq(s[k], s[l]))
    && (forall l :: j < l <= i ==> RootLessEq(s[j], s[l]))
  }

  /** Swapping `s[j]` with a strictly greater left neighbour moves the hole one step left. */
  lemma SwapStep(s: seq<FileNode>, i: nat, j: nat)
    requires 0 < j <= i < |s| && InsertingAt(s, i, j) && !RootLessEq(s[j - 1], s[j])
    ensures InsertingAt(s[j - 1 := s[j]][j := s[j - 1]], i, j - 1)
  {
    var t := s[j - 1 := s[j]][j := s[j - 1]];
    RootLessEqTotal(s[j - 1], s[j]);
    forall l | j - 1 < l <= i
      ensures RootLessEq(t[j - 1], t[l])
    {
      if l > j {
        RootLessEqTransitive(s[j], s[j - 1], s[l]);
      }
    }
  }

  /** When the hole's left neighbour is no greater, the prefix is sorted. */
  lemma InsertDone(s: seq<FileNode>, i: nat, j: nat)
    requires j <= i < |s| && InsertingAt(s, i, j)
    requires j > 0 ==> RootLessEq(s[j - 1], s[j])
    ensures SortedForRoot(s[..i + 1])
  {
    forall k | 0 <= k < j
      ensures RootLessEq(s[k], s[j])
    {
      if k < j - 1 {
        RootLessEqTransitive(s[k], s[j - 1], s[j]);
      }
    }
  }

  /** Moves `a[i]` left past every greater node, so that `a[..i + 1]` becomes sorted. */
  method InsertLast(a: array<FileNode>, i: nat)
    requires i < a.Length && SortedForRoot(a[..i])
    modifies a
    ensures SortedForRoot(a[..i + 1])
    ensures multiset(a[..]) == old(multiset(a[..]))
  {
    var j := i;
    assert InsertingAt(a[..], i, j);
    while j > 0 && !RootLessEq(a[j - 1], a[j])
      invariant 0 <= j <= i
      invariant multiset(a[..]) == old(multiset(a[..]))
      invariant InsertingAt(a[..], i, j)
    {
      SwapDown(a, i, j);
      j := j - 1;
    }
    InsertDone(a[..], i, j);
  }

  /** One round of the insertion loop: the node moves one place left. */
  method SwapDown(a: array<FileNode>, i: nat, j: nat)
    requires 0 < j <= i < a.Length && InsertingAt(a[..], i, j) && !RootLessEq(a[j - 1], a[j])
    modifies a
    ensures InsertingAt(a[..], i, j - 1)
    ensures multiset(a[..]) == old(multiset(a[..]))
  {
    ghost var s := a[..];
    SwapStep(s, i, j);
    SwapMultiset(s, j - 1, j);
    a[j - 1], a[j] := a[j], a[j - 1];
    assert a[..] == s[j - 1 := s[j]][j := s[j - 1]];
  }

  /**
   * `scan_directory`: validate the path, walk it from depth 0 with the limit
   * of six, then sort the top level. The recursive walk never fails.
   */
  method ScanDirectory(dirPath: string, status: PathStatus, root: Listing) returns (r: Result<seq<FileNode>, string>)
    ensures ValidateDirectoryPath(dirPath, status).Err? ==> r == Err(ValidateDirectoryPath(dirPath, status).error)
    ensures ValidateDirectoryPath(dirPath, status).Ok? ==>
      r.Ok? && SortedForRoot(r.value) && multiset(r.value) == multiset(ScanDir(root, 0, MaxDepth))
  {
    var base := ValidateDirectoryPath(dirPath, status);
    if base.Err? {
      return Err(base.error);
    }
    var rootNodes := ScanDirectoryRecursive(root, 0, MaxDepth);
    var a := new FileNode[|rootNodes|](i requires 0 <= i < |rootNodes| => rootNodes[i]);
    assert a[..] == rootNodes;
    SortRootNodes(a);
    r := Ok(a[..]);
  }
}
