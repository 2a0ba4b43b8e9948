/**
 * `src/App.tsx`: the top-level component's state (source name, selected
 * files, recent sources, last folder, the folder being scanned) and its
 * handlers. What is sent to `update_settings` is returned by the handlers
 * that send it; window resizing is not modelled.
 */
module App {
  import opened Wrappers
  import opened Strings
  import opened FileLists
  import opened Settings

  /** How many old entries survive when a new recent source is put in front. */
  const KeptRecentSources: nat := 9

  /** A `Partial<SettingsData>`: the fields a caller chose to provide. */
  datatype SettingsUpdate = SettingsUpdate(
    darkMode: Option<bool>,
    recentSources: Option<seq<string>>,
    lastFolder: Option<string>)

  /**
   * The object `updateSettings` sends: dark mode on, the current lists, then
   * whatever the update provides on top.
   */
  function MergedSettings(recentSources: seq<string>, lastFolder: string, u: SettingsUpdate): (r: SettingsData)
    ensures u.darkMode.None? ==> r.darkMode
    ensures u.recentSources.None? ==> r.recentSources == recentSources
    ensures u.lastFolder.None? ==> r.lastFolder == lastFolder
    ensures u.darkMode.Some? ==> r.darkMode == u.darkMode.value
    ensures u.recentSources.Some? ==> r.recentSources == u.recentSources.value
    ensures u.lastFolder.Some? ==> r.lastFolder == u.lastFolder.value
  {
    SettingsData(
      if u.darkMode.Some? then u.darkMode.value else true,
      if u.recentSources.Some? then u.recentSources.value else recentSources,
      if u.lastFolder.Some? then u.lastFolder.value else lastFolder)
  }

  /** Whether typing `name` records it as a recent source. */
  predicate RecordsRecent(recent: seq<string>, name: string)
  {
    Trim(name) != "" && Trim(name) !in recent
  }

  /**
   * The recent-source list after the name field becomes `name`: the trimmed
   * name in front of the first nine old entries when it is non-blank and new,
   * the old list otherwise.
   */
  function RecentAfter(recent: seq<string>, name: string): (r: seq<string>)
    ensures RecordsRecent(recent, name) ==> |r| > 0 && r[0] == Trim(name) && r[1..] == recent[..Min(|recent|, KeptRecentSources)]
    ensures !RecordsRecent(recent, name) ==> r == recent
  {
    if RecordsRecent(recent, name) then [Trim(name)] + recent[..Min(|recent|, KeptRecentSources)]
    else recent
  }

  function Min(a: nat, b: nat): nat
  {
    if a <= b then a else b
  }

  /** A new entry never makes the list longer than ten, and an old list of any length is cut to ten. */
  lemma RecentAfterBounded(recent: seq<string>, name: string)
    ensures |RecentAfter(recent, name)| <= (if RecordsRecent(recent, name) then KeptRecentSources + 1 else |recent|)
    ensures |recent| <= KeptRecentSources + 1 ==> |RecentAfter(recent, name)| <= KeptRecentSources + 1
  {
  }

  /** A list without repeats stays without repeats. */
  lemma RecentAfterNoDuplicates(recent: seq<string>, name: string)
    requires NoDuplicates(recent)
    ensures NoDuplicates(RecentAfter(recent, name))
  {
    var r := RecentAfter(recent, name);
    if RecordsRecent(recent, name) {
      var kept := recent[..Min(|recent|, KeptRecentSources)];
      forall i, j | 0 <= i < j < |r|
        ensures r[i] != r[j]
      {
        assert r[j] == kept[j - 1] && kept[j - 1] == recent[j - 1];
        if i > 0 {
          assert r[i] == recent[i - 1];
        } else {
          assert recent[j - 1] in recent;
        }
      }
    }
  }

  /** Typing the same name again changes nothing: the trimmed name is then present. */
  lemma RecentAfterIdempotent(recent: seq<string>, name: string)
    ensures RecentAfter(RecentAfter(recent, name), name) == RecentAfter(recent, name)
    ensures Trim(name) != "" ==> Trim(name) in RecentAfter(recent, name)
  {
    var r := RecentAfter(recent, name);
    if RecordsRecent(recent, name) {
      assert r[0] in r;
    }
  }

  class AppState {
    var sourceName: string
    var selectedFiles: seq<string>
    var recentSources: seq<string>
    var lastFolder: string
    /** `scanningFolder`: `None` is `null`. */
    var scanningFolder: Option<string>

    constructor ()
      ensures sourceName == "" && selectedFiles == [] && recentSources == [] && lastFolder == ""
      ensures scanningFolder == None
    {
      sourceName := "";
      selectedFiles := [];
      recentSources := [];
      lastFolder := "";
      scanningFolder := None;
    }

    /** The selection view replaces the steps while the scanned folder is a non-empty string. */
    predicate SelectionViewShown()
      reads this
    {
      scanningFolder.Some? && scanningFolder.value != ""
    }

    /** The mount effect, given what `get_settings` answered: a failure only logs. */
    method ApplyLoadedSettings(loaded: Result<SettingsData, string>)
      modifies this`recentSources, this`lastFolder
      ensures loaded.Ok? ==> recentSources == loaded.value.recentSources && lastFolder == loaded.value.lastFolder
      ensures loaded.Err? ==> recentSources == old(recentSources) && lastFolder == old(lastFolder)
    {
      if loaded.Ok? {
        recentSources := loaded.value.recentSources;
        lastFolder := loaded.value.lastFolder;
      }
    }

    /**
     * `updateSettings`: sends the merged record and copies the provided list
     * fields into the local state; a provided dark-mode flag is only sent.
     */
    method UpdateSettings(u: SettingsUpdate) returns (sent: SettingsData)
      modifies this`recentSources, this`lastFolder
      ensures sent == MergedSettings(old(recentSources), old(lastFolder), u)
      ensures recentSources == (if u.recentSources.Some? then u.recentSources.value else old(recentSources))
      ensures lastFolder == (if u.lastFolder.Some? then u.lastFolder.value else old(lastFolder))
    {
      sent := MergedSettings(recentSources, lastFolder, u);
      if u.recentSources.Some? {
        recentSources := u.recentSources.value;
      }
      if u.lastFolder.Some? {
        lastFolder := u.lastFolder.value;
      }
    }

    /** `handleSourceNameChange`: the name is always taken; a new non-blank name is also recorded and saved. */
    method HandleSourceNameChange(name: string) returns (sent: Option<SettingsData>)
      modifies this`sourceName, this`recentSources, this`lastFolder
      ensures sourceName == name && lastFolder == old(lastFolder)
      ensures recentSources == RecentAfter(old(recentSources), name)
      ensures sent.Some? <==> RecordsRecent(old(recentSources), name)
      ensures sent.Some? ==> sent.value == SettingsData(true, recentSources, lastFolder)
    {
      sourceName := name;
      sent := None;
      if RecordsRecent(recentSources, name) {
        var updated := [Trim(name)] + recentSources[..Min(|recentSources|, KeptRecentSources)];
        var s := UpdateSettings(SettingsUpdate(None, Some(updated), None));
        sent := Some(s);
      }
    }

    /** `onLastFolderChange` of the second step. */
    method HandleLastFolderChange(folder: string) returns (sent: SettingsData)
      modifies this`recentSources, this`lastFolder
      ensures lastFolder == folder && recentSources == old(recentSources)
      ensures sent == SettingsData(true, recentSources, folder)
    {
      sent := UpdateSettings(SettingsUpdate(None, None, Some(folder)));
    }

    /** `handleScanFolder`: opens the selection view on `folder`. */
    method HandleScanFolder(folder: string)
      modifies this`scanningFolder
      ensures scanningFolder == Some(folder)
    {
      scanningFolder := Some(folder);
    }

    /** `handleCloseSelection`: back to the steps. */
    method HandleCloseSelection()
      modifies this`scanningFolder
      ensures scanningFolder == None && !SelectionViewShown()
    {
      scanningFolder := None;
    }

    /**
     * `handleConfirmSelection`: the confirmed files not already selected are
     * appended in their order, and the selection view closes.
     */
    method HandleConfirmSelection(files: seq<string>)
      modifies this`selectedFiles, this`scanningFolder
      ensures selectedFiles == MergeNew(old(selectedFiles), files)
      ensures selectedFiles[..|old(selectedFiles)|] == old(selectedFiles)
      ensures Elems(selectedFiles) == Elems(old(selectedFiles)) + Elems(files)
      ensures !SelectionViewShown()
    {
      MergeKeepsAndAppends(selectedFiles, files);
      var newFiles := KeepAbsent(files, selectedFiles);
      selectedFiles := selectedFiles + newFiles;
      HandleCloseSelection();
    }

    /** `onSelectedFilesChange` of the second step. */
    method SetSelectedFiles(files: seq<string>)
      modifies this`selectedFiles
      ensures selectedFiles == files
    {
      selectedFiles := files;
    }

    /** `onSuccess` of the third step: a generated file clears the selection. */
    method OnGenerateSuccess()
      modifies this`selectedFiles
      ensures selectedFiles == []
    {
      selectedFiles := [];
    }
  }
}
