/**
 * `src/components/Step2FileSelection.tsx`: the second step of the main view.
 * Adding files merges the picked paths into the selection and remembers the
 * folder of the first new one; the preview groups the selection by folder
 * and shows at most two folders of at most three names each. The native
 * file dialog is abstracted as what it returns (`None` when cancelled).
 */
module FileSelectionStep {
  import opened Wrappers
  import opened Strings
  import opened FileLists

  const Placeholder := "Nessun file selezionato..."
  const MaxShownFolders: nat := 2
  const MaxShownFiles: nat := 3

  /** The text before the last separator, or "" when there is none. */
  function FolderOf(path: string): string
  {
    var k := LastSeparator(path);
    if k >= 0 then path[..k] else ""
  }

  /** The text after the last separator, or the whole path when there is none. */
  function BaseName(path: string): (r: string)
    ensures forall i :: 0 <= i < |r| ==> !IsSeparator(r[i])
  {
    var k := LastSeparator(path);
    if k >= 0 then path[k + 1..] else path
  }

  /** Folder and name put back together, with the separator between them, give the path. */
  lemma SplitRoundTrip(path: string)
    ensures LastSeparator(path) >= 0 ==>
      FolderOf(path) + [path[LastSeparator(path)]] + BaseName(path) == path
    ensures LastSeparator(path) < 0 ==>
      FolderOf(path) == "" && BaseName(path) == path && forall i :: 0 <= i < |path| ==> !IsSeparator(path[i])
  {
    var k := LastSeparator(path);
    if k >= 0 {
      assert path == path[..k] + [path[k]] + path[k + 1..];
    }
  }

  // ---------------------------------------------------------------------------
  // Adding files, clearing, picking a folder

  datatype AddOutcome =
    | Cancelled
    | Added(selection: seq<string>, lastFolder: Option<string>)

  /** The folder remembered after adding: that of the first new file, when it has a separator. */
  function NewLastFolder(newFiles: seq<string>): (r: Option<string>)
    ensures r.Some? <==> |newFiles| > 0 && LastSeparator(newFiles[0]) >= 0
    ensures r.Some? ==> |r.value| < |newFiles[0]| && newFiles[0][..|r.value|] == r.value && IsSeparator(newFiles[0][|r.value|])
  {
    if |newFiles| > 0 && LastSeparator(newFiles[0]) >= 0 then Some(FolderOf(newFiles[0])) else None
  }

  /**
   * `handleAddFiles`: a cancelled dialog changes nothing; otherwise the picked
   * paths not already selected are appended and the folder of the first of
   * them, if any, becomes the last folder.
   */
  function AddFiles(selected: seq<string>, picked: Option<seq<string>>): (r: AddOutcome)
    ensures picked.None? <==> r.Cancelled?
    ensures picked.Some? ==> r.selection == MergeNew(selected, picked.value)
    ensures picked.Some? ==> r.lastFolder == NewLastFolder(KeepAbsent(picked.value, selected))
  {
    match picked
    case None => Cancelled
    case Some(files) =>
      var newFiles := KeepAbsent(files, selected);
      Added(selected + newFiles, NewLastFolder(newFiles))
  }

  /**
   * After adding, the old selection is a prefix, every picked path is
   * selected, and a remembered folder is the folder of a path that was picked
   * and not selected before; picking only known paths changes nothing.
   */
  lemma AddFilesProperties(selected: seq<string>, picked: seq<string>)
    ensures AddFiles(selected, Some(picked)).selection[..|selected|] == selected
    ensures Elems(AddFiles(selected, Some(picked)).selection) == Elems(selected) + Elems(picked)
    ensures AddFiles(selected, Some(picked)).lastFolder.Some? ==>
      exists f :: f in picked && f !in selected && FolderOf(f) == AddFiles(selected, Some(picked)).lastFolder.value
    ensures (forall f :: f in picked ==> f in selected) ==>
      AddFiles(selected, Some(picked)) == Added(selected, None)
  {
    MergeKeepsAndAppends(selected, picked);
    var newFiles := KeepAbsent(picked, selected);
    if |newFiles| > 0 {
      assert newFiles[0] in newFiles;
    }
  }

  /**
   * The remembered folder comes from the first picked path that was not
   * selected before: its folder when it has a separator, none otherwise.
   */
  lemma AddFilesFirstNewFolder(selected: seq<string>, picked: seq<string>, i: nat)
    requires i < |picked| && picked[i] !in selected
    requires forall j :: 0 <= j < i ==> picked[j] in selected
    ensures AddFiles(selected, Some(picked)).lastFolder ==
      (if LastSeparator(picked[i]) >= 0 then Some(FolderOf(picked[i])) else None)
  {
    var newFiles := KeepAbsent(picked, selected);
    assert picked[i] in newFiles;
    KeepAbsentFirst(picked, selected);
    var i' :|
      && 0 <= i' < |picked| && newFiles[0] == picked[i']
      && picked[i'] !in selected && (forall j :: 0 <= j < i' ==> picked[j] in selected);
    assert i' == i;
  }

  /** `handleClearSelection`: the empty selection, which previews as the placeholder. */
  function ClearSelection(): (r: seq<string>)
    ensures |r| == 0 && PreviewText(r) == Placeholder
  {
    []
  }

  /** `handleScanFolder`: a picked, non-empty folder is both remembered and scanned. */
  function FolderToScan(picked: Option<string>): (r: Option<string>)
    ensures r.Some? <==> picked.Some? && picked.value != ""
    ensures r.Some? ==> r.value == picked.value
  {
    if picked.Some? && picked.value != "" then picked else None
  }

  // ---------------------------------------------------------------------------
  // Grouping by folder

  /** One entry of the `folders` map: a folder and the names of its selected files. */
  datatype Group = Group(folder: string, names: seq<string>)

  /** The position of `folder` among the groups, or -1 (`folders.has` / `folders.get`). */
  function FindFolder(gs: seq<Group>, folder: string): (k: int)
    ensures -1 <= k < |gs|
    ensures k >= 0 ==> gs[k].folder == folder
    ensures k < 0 <==> forall j :: 0 <= j < |gs| ==> gs[j].folder != folder
  {
    if gs == [] then -1
    else
      var k := FindFolder(gs[..|gs| - 1], folder);
      if k >= 0 then k
      else if gs[|gs| - 1].folder == folder then |gs| - 1
      else -1
  }

  /** One `forEach` step: the name joins its folder's group, created at the end when new. */
  function AddToGroup(gs: seq<Group>, folder: string, name: string): seq<Group>
  {
    var k := FindFolder(gs, folder);
    if k < 0 then gs + [Group(folder, [name])]
    else gs[k := Group(folder, gs[k].names + [name])]
  }

  /** The `folders` map built from the selection, in insertion order. */
  function Groups(files: seq<string>): seq<Group>
  {
    if files == [] then []
    else
      var f := files[|files| - 1];
      AddToGroup(Groups(files[..|files| - 1]), FolderOf(f), BaseName(f))
  }

  function Folders(gs: seq<Group>): (r: seq<string>)
    ensures |r| == |gs| && forall j :: 0 <= j < |gs| ==> r[j] == gs[j].folder
  {
    seq(|gs|, j requires 0 <= j < |gs| => gs[j].folder)
  }

  /** A reference definition of first-seen order: each value kept at its first occurrence. */
  function FirstSeen(s: seq<string>): (r: seq<string>)
    ensures Elems(r) == Elems(s)
  {
    if s == [] then []
    else
      var init := FirstSeen(s[..|s| - 1]);
      var last := s[|s| - 1];
      assert s == s[..|s| - 1] + [last];
      ElemsConcat(s[..|s| - 1], [last]);
      ElemsConcat(init, [last]);
      if last in init then init else init + [last]
  }

  function FolderList(files: seq<string>): (r: seq<string>)
    ensures |r| == |files| && forall i :: 0 <= i < |files| ==> r[i] == FolderOf(files[i])
  {
    seq(|files|, i requires 0 <= i < |files| => FolderOf(files[i]))
  }

  /** The names of the files of `folder`, in selection order. */
  function NamesIn(files: seq<string>, folder: string): seq<string>
  {
    if files == [] then []
    else
      var f := files[|files| - 1];
      NamesIn(files[..|files| - 1], folder) + (if FolderOf(f) == folder then [BaseName(f)] else [])
  }

  /** Total number of names over all groups. */
  function TotalNames(gs: seq<Group>): nat
  {
    if gs == [] then 0 else TotalNames(gs[..|gs| - 1]) + |gs[|gs| - 1].names|
  }

  lemma {:induction false} AddToGroupFolders(gs: seq<Group>, folder: string, name: string)
    ensures Folders(AddToGroup(gs, folder, name)) == Folders(gs) + (if folder in Folders(gs) then [] else [folder])
  {
    var k := FindFolder(gs, folder);
    if k >= 0 {
      assert Folders(gs)[k] == folder;
    }
  }

  /** The groups appear in the order their folders are first met in the selection. */
  lemma {:induction false} GroupsInFirstSeenOrder(files: seq<string>)
    ensures Folders(Groups(files)) == FirstSeen(FolderList(files))
  {
    if files != [] {
      var init := files[..|files| - 1];
      var f := files[|files| - 1];
      GroupsInFirstSeenOrder(init);
      AddToGroupFolders(Groups(init), FolderOf(f), BaseName(f));
      assert FolderList(files)[..|files| - 1] == FolderList(init);
      assert FolderOf(f) in Folders(Groups(init)) <==> FolderOf(f) in Elems(FirstSeen(FolderList(init)));
    }
  }

  /** No folder has two groups. */
  lemma {:induction false} GroupsDistinct(files: seq<string>)
    ensures NoDuplicates(Folders(Groups(files)))
  {
    if files != [] {
      var init := files[..|files| - 1];
      var f := files[|files| - 1];
      GroupsDistinct(init);
      AddToGroupFolders(Groups(init), FolderOf(f), BaseName(f));
      var before := Folders(Groups(init));
      if FolderOf(f) !in before {
        var after := before + [FolderOf(f)];
        forall i, j | 0 <= i < j < |after|
          ensures after[i] != after[j]
        {
          if j == |before| {
            assert after[i] == before[i] && before[i] in before;
          } else {
            assert after[i] == before[i] && after[j] == before[j];
          }
        }
      }
    }
  }

  /** A folder none of whose files is selected has no names. */
  lemma {:induction false} NamesInAbsent(files: seq<string>, folder: string)
    requires folder !in Elems(FolderList(files))
    ensures NamesIn(files, folder) == []
  {
    if files != [] {
      var init := files[..|files| - 1];
      assert FolderList(init) == FolderList(files)[..|files| - 1];
      assert FolderList(files)[|files| - 1] in FolderList(files);
      NamesInAbsent(init, folder);
    }
  }

  /** Each group holds exactly the names of its folder's files, in selection order. */
  lemma {:induction false} GroupsHoldTheirNames(files: seq<string>)
    ensures forall j :: 0 <= j < |Groups(files)| ==> Groups(files)[j].names == NamesIn(files, Groups(files)[j].folder)
  {
    if files != [] {
      var init := files[..|files| - 1];
      var f := files[|files| - 1];
      var gs := Groups(init);
      GroupsHoldTheirNames(init);
      GroupsDistinct(init);
      var k := FindFolder(gs, FolderOf(f));
      var after := Groups(files);
      assert after == AddToGroup(gs, FolderOf(f), BaseName(f));
      forall j | 0 <= j < |after|
        ensures after[j].names == NamesIn(files, after[j].folder)
      {
        if j == k {
          assert after[j] == Group(FolderOf(f), gs[k].names + [BaseName(f)]);
        } else if j < |gs| {
          assert after[j] == gs[j];
          if k >= 0 {
            assert Folders(gs)[j] != Folders(gs)[k];
          }
          assert gs[j].folder != FolderOf(f);
        } else {
          assert k < 0 && after[j] == Group(FolderOf(f), [BaseName(f)]);
          GroupsInFirstSeenOrder(init);
          assert FolderOf(f) !in Folders(gs);
          assert FolderOf(f) !in Elems(FolderList(init));
          NamesInAbsent(init, FolderOf(f));
        }
      }
    }
  }

  lemma {:induction false} TotalNamesUpdate(gs: seq<Group>, k: nat, g: Group)
    requires k < |gs|
    ensures TotalNames(gs[k := g]) == TotalNames(gs) - |gs[k].names| + |g.names|
  {
    var last := |gs| - 1;
    if k < last {
      TotalNamesUpdate(gs[..last], k, g);
      assert gs[k := g][..last] == gs[..last][k := g];
    } else {
      assert gs[k := g][..last] == gs[..last];
    }
  }

  /** Every selected file is listed in exactly one group: the names add up to the selection's size. */
  lemma {:induction false} GroupsCountEveryFile(files: seq<string>)
    ensures TotalNames(Groups(files)) == |files|
  {
    if files != [] {
      var init := files[..|files| - 1];
      var f := files[|files| - 1];
      var gs := Groups(init);
      GroupsCountEveryFile(init);
      var k := FindFolder(gs, FolderOf(f));
      if k < 0 {
        assert (gs + [Group(FolderOf(f), [BaseName(f)])])[..|gs|] == gs;
      } else {
        TotalNamesUpdate(gs, k, Group(FolderOf(f), gs[k].names + [BaseName(f)]));
      }
    }
  }

  // ---------------------------------------------------------------------------
  // The preview text

  function Header(count: nat): string
  {
    "\U{1F4CB} " + NatToString(count) + " file selezionati:\n\n"
  }

  function FolderLine(folder: string): string
  {
    "\U{1F4C1} " + BaseName(folder) + "/\n"
  }

  function NameLine(name: string): string
  {
    "  • " + name + "\n"
  }

  function MoreFiles(count: nat): string
  {
    "  ... +" + NatToString(count) + " file\n"
  }

  /** The closing line when folders are left out; singular exactly for one folder. */
  function MoreFolders(count: nat): (r: string)
    ensures |r| > 0 && (r[|r| - 1] == 'a' <==> count == 1)
  {
    "\n... e altri file in " + NatToString(count) + " cartell" + (if count == 1 then "a" else "e")
  }

  /** The lines of the first `k` names. */
  function NameLines(names: seq<string>, k: nat): string
    requires k <= |names|
  {
    if k == 0 then "" else NameLines(names, k - 1) + NameLine(names[k - 1])
  }

  /** A group: its label, at most three names, then how many more. */
  function GroupText(g: Group): string
  {
    FolderLine(g.folder)
      + if |g.names| <= MaxShownFiles then NameLines(g.names, |g.names|)
        else NameLines(g.names, MaxShownFiles) + MoreFiles(|g.names| - MaxShownFiles)
  }

  /** The text of the first `k` groups. */
  function GroupLines(gs: seq<Group>, k: nat): string
    requires k <= |gs|
  {
    if k == 0 then "" else GroupLines(gs, k - 1) + GroupText(gs[k - 1])
  }

  /** The folders shown: at most `MaxShownFolders` groups, then how many more. */
  function ShownGroups(gs: seq<Group>): string
  {
    if |gs| <= MaxShownFolders then GroupLines(gs, |gs|)
    else GroupLines(gs, MaxShownFolders) + MoreFolders(|gs| - MaxShownFolders)
  }

  /** `filesPreview`. */
  function PreviewText(files: seq<string>): string
  {
    if files == [] then Placeholder
    else Header(|files|) + ShownGroups(Groups(files))
  }

  /** The preview of a non-empty selection opens with the count of all selected files. */
  lemma PreviewStartsWithCount(files: seq<string>)
    requires files != []
    ensures StartsWith(PreviewText(files), Header(|files|))
  {
  }

  /** The step the grouping loop takes equals `AddToGroup`. */
  lemma CreateThenPush(gs: seq<Group>, folder: string, name: string)
    requires FindFolder(gs, folder) < 0
    ensures FindFolder(gs + [Group(folder, [])], folder) == |gs|
    ensures (gs + [Group(folder, [])])[|gs| := Group(folder, [] + [name])] == AddToGroup(gs, folder, name)
  {
    var created := gs + [Group(folder, [])];
    assert created[..|created| - 1] == gs;
    assert [] + [name] == [name];
    assert created[|gs| := Group(folder, [name])] == gs + [Group(folder, [name])];
  }

  /** The `forEach` that fills the `folders` map, creating a folder's entry the first time it is met. */
  method GroupByFolder(selectedFiles: seq<string>) returns (folders: seq<Group>)
    ensures folders == Groups(selectedFiles)
  {
    folders := [];
    for i := 0 to |selectedFiles|
      invariant folders == Groups(selectedFiles[..i])
    {
      GroupsStep(selectedFiles, i);
      folders := GroupFile(folders, selectedFiles[i]);
    }
    SliceAll(selectedFiles);
  }

  /** One round of the `forEach`: the file's name is pushed onto its folder's entry. */
  method GroupFile(folders: seq<Group>, file: string) returns (folders': seq<Group>)
    ensures folders' == AddToGroup(folders, FolderOf(file), BaseName(file))
  {
    var lastSeparator := LastSeparator(file);
    var folder := if lastSeparator >= 0 then file[..lastSeparator] else "";
    var fileName := if lastSeparator >= 0 then file[lastSeparator + 1..] else file;
    folders' := folders;
    if FindFolder(folders', folder) < 0 {
      CreateThenPush(folders', folder, fileName);
      folders' := folders' + [Group(folder, [])];
    }
    var k := FindFolder(folders', folder);
    folders' := folders'[k := Group(folder, folders'[k].names + [fileName])];
  }

  lemma GroupsStep(files: seq<string>, i: nat)
    requires i < |files|
    ensures Groups(files[..i + 1]) == AddToGroup(Groups(files[..i]), FolderOf(files[i]), BaseName(files[i]))
  {
    SliceOfSlice(files, i + 1, i);
  }

  /** The body of the outer preview loop for one folder: its label, then its names with the `shownFiles` counter. */
  method AppendGroup(prefix: string, group: Group) returns (text: string)
    ensures text == prefix + GroupText(group)
  {
    text := prefix + FolderLine(group.folder);
    var shownFiles := 0;
    while shownFiles < |group.names|
      invariant shownFiles <= |group.names| && shownFiles <= MaxShownFiles
      invariant text == prefix + FolderLine(group.folder) + NameLines(group.names, shownFiles)
    {
      if shownFiles >= MaxShownFiles {
        Assoc(prefix + FolderLine(group.folder), NameLines(group.names, shownFiles), MoreFiles(|group.names| - shownFiles));
        Assoc(prefix, FolderLine(group.folder), NameLines(group.names, shownFiles) + MoreFiles(|group.names| - shownFiles));
        text := text + MoreFiles(|group.names| - shownFiles);
        break;
      }
      Assoc(prefix + FolderLine(group.folder), NameLines(group.names, shownFiles), NameLine(group.names[shownFiles]));
      text := text + NameLine(group.names[shownFiles]);
      shownFiles := shownFiles + 1;
    }
    Assoc(prefix, FolderLine(group.folder), NameLines(group.names, shownFiles));
  }

  /** `filesPreview`: the grouping pass, then the folder loop. */
  method FilesPreview(selectedFiles: seq<string>) returns (text: string)
    ensures text == PreviewText(selectedFiles)
  {
    if |selectedFiles| == 0 {
      return Placeholder;
    }
    var folders := GroupByFolder(selectedFiles);
    text := AppendFolders(Header(|selectedFiles|), folders);
  }

  /** The folder loop of `filesPreview`, with the `shownFolders` counter and `break`. */
  method AppendFolders(header: string, folders: seq<Group>) returns (text: string)
    ensures text == header + ShownGroups(folders)
  {
    text := header;
    var shownFolders := 0;
    while shownFolders < |folders|
      invariant shownFolders <= |folders| && shownFolders <= MaxShownFolders
      invariant text == header + GroupLines(folders, shownFolders)
    {
      if shownFolders >= MaxShownFolders {
        text := AppendMoreFolders(header, folders, text);
        return;
      }
      text := AppendNextGroup(header, folders, shownFolders, text);
      shownFolders := shownFolders + 1;
    }
    ShownGroupsAll(header, folders, text);
  }

  /** The `break` of the folder loop: how many folders are not shown. */
  method AppendMoreFolders(header: string, gs: seq<Group>, text: string) returns (text': string)
    requires |gs| > MaxShownFolders && text == header + GroupLines(gs, MaxShownFolders)
    ensures text' == header + ShownGroups(gs)
  {
    ShownGroupsCut(header, gs, text);
    text' := text + MoreFolders(|gs| - MaxShownFolders);
  }

  /** One round of the folder loop: the next group's text is appended. */
  method AppendNextGroup(header: string, gs: seq<Group>, k: nat, text: string) returns (text': string)
    requires k < |gs| && text == header + GroupLines(gs, k)
    ensures text' == header + GroupLines(gs, k + 1)
  {
    GroupLinesStep(header, gs, k);
    text' := AppendGroup(text, gs[k]);
  }

  lemma GroupLinesStep(header: string, gs: seq<Group>, k: nat)
    requires k < |gs|
    ensures header + GroupLines(gs, k) + GroupText(gs[k]) == header + GroupLines(gs, k + 1)
  {
    Assoc(header, GroupLines(gs, k), GroupText(gs[k]));
  }

  lemma ShownGroupsCut(header: string, gs: seq<Group>, text: string)
    requires |gs| > MaxShownFolders && text == header + GroupLines(gs, MaxShownFolders)
    ensures text + MoreFolders(|gs| - MaxShownFolders) == header + ShownGroups(gs)
  {
    Assoc(header, GroupLines(gs, MaxShownFolders), MoreFolders(|gs| - MaxShownFolders));
  }

  lemma ShownGroupsAll(header: string, gs: seq<Group>, text: string)
    requires |gs| <= MaxShownFolders && text == header + GroupLines(gs, |gs|)
    ensures text == header + ShownGroups(gs)
  {
  }
}
