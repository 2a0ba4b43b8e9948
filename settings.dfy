/**
 * `src-tauri/src/settings.rs`: the settings record with its defaults, and
 * the per-folder selection history (a map from folder to its last confirmed
 * file list) capped at twenty folders. Files on disk are abstracted as what
 * reading them yields; JSON (de)serialisation is folded into that outcome.
 */
module Settings {
  import opened Wrappers
  import opened Strings

  datatype SettingsData = SettingsData(darkMode: bool, recentSources: seq<string>, lastFolder: string)

  /** The history file's content: folder path to its stored file list (`SourceSelection.files`). */
  type History = map<string, seq<string>>

  /** `MAX_HISTORY_SIZE`. */
  const MaxHistorySize: nat := 20

  /** What reading a JSON file of the settings directory yields. */
  datatype StoredFile<T> =
    | DirUnavailable(error: string)   // `get_settings_dir` failed: no home directory, or it cannot be created
    | Missing
    | Unreadable(error: string)
    | Unparseable(error: string)
    | Parsed(value: T)

  /** `SettingsData::default`. */
  function DefaultSettings(): SettingsData
  {
    SettingsData(true, [], "")
  }

  /** `load_settings`: the defaults when the file is absent, its content when it parses, an error otherwise. */
  function LoadSettings(file: StoredFile<SettingsData>): (r: Result<SettingsData, string>)
    ensures file.Missing? ==> r.Ok? && r.value.darkMode && r.value.recentSources == [] && r.value.lastFolder == ""
    ensures file.Parsed? ==> r == Ok(file.value)
    ensures r.Err? <==> !file.Missing? && !file.Parsed?
  {
    match file
    case DirUnavailable(e) => Err(e)
    case Missing => Ok(DefaultSettings())
    case Unreadable(e) => Err("Failed to read settings file: " + e)
    case Unparseable(e) => Err("Failed to parse settings: " + e)
    case Parsed(s) => Ok(s)
  }

  /** `load_selections`: no file gives no files, a missing key gives no files; an unavailable directory, an unreadable or an unparseable file is an error. */
  function LoadSelections(file: StoredFile<History>, sourceName: string): (r: Result<seq<string>, string>)
    ensures file.Missing? ==> r == Ok([])
    ensures file.Parsed? ==> r == Ok(if sourceName in file.value then file.value[sourceName] else [])
    ensures r.Err? <==> !file.Missing? && !file.Parsed?
  {
    match file
    case DirUnavailable(e) => Err(e)
    case Missing => Ok([])
    case Unreadable(e) => Err("Failed to read history file: " + e)
    case Unparseable(e) => Err("Failed to parse history: " + e)
    case Parsed(h) => Ok(if sourceName in h then h[sourceName] else [])
  }

  /** The map `save_selections` starts from: the parsed history, or empty when absent or unparseable. */
  function BaseHistory(file: StoredFile<History>): History
  {
    if file.Parsed? then file.value else map[]
  }

  /**
   * `after` is `before` with its lexicographically smallest keys removed until
   * at most `cap` remain: a sub-map of `before`, of size min(|before|, cap),
   * every removed key sorting before every kept key.
   */
  ghost predicate EvictedSmallest(before: History, after: History, cap: nat)
  {
    && after.Keys <= before.Keys
    && (forall k :: k in after ==> after[k] == before[k])
    && |after| == (if |before| > cap then cap else |before|)
    && (forall a, b :: a in before && a !in after && b in after ==> Less(a, b))
  }

  /** What `save_selections` writes: the key's entry replaced by `files`, then the cap applied. */
  ghost predicate SavedAndCapped(base: History, sourceName: string, files: seq<string>, after: History)
  {
    EvictedSmallest(base[sourceName := files], after, MaxHistorySize)
  }

  /** Last write wins for the saved key, and every other surviving entry keeps its stored list. */
  lemma SaveEntries(base: History, sourceName: string, files: seq<string>, after: History)
    requires SavedAndCapped(base, sourceName, files, after)
    ensures sourceName in after ==> after[sourceName] == files
    ensures forall k :: k in after && k != sourceName ==> k in base && after[k] == base[k]
    ensures |after| <= MaxHistorySize
  {
  }

  /** Under the cap nothing is evicted: the history is exactly the old one with the key replaced. */
  lemma NoEvictionUnderCap(base: History, sourceName: string, files: seq<string>, after: History)
    requires SavedAndCapped(base, sourceName, files, after)
    requires |base[sourceName := files]| <= MaxHistorySize
    ensures after == base[sourceName := files]
  {
    var h := base[sourceName := files];
    var missing := h.Keys - after.Keys;
    assert |h.Keys| == |after.Keys| + |missing| by {
      assert h.Keys == after.Keys + missing;
    }
    assert h.Keys == after.Keys;
  }

  /**
   * The cap evicts by key order, not by age: saving a folder whose path sorts
   * before every stored one, into a full history, drops the folder just saved.
   */
  lemma SmallestNewKeyIsEvicted(base: History, sourceName: string, files: seq<string>, after: History)
    requires SavedAndCapped(base, sourceName, files, after)
    requires |base| >= MaxHistorySize && sourceName !in base
    requires forall k :: k in base ==> Less(sourceName, k)
    ensures sourceName !in after
  {
    var h := base[sourceName := files];
    assert h.Keys == base.Keys + {sourceName};
    assert |h| > MaxHistorySize;
    if sourceName in after {
      var missing := h.Keys - after.Keys;
      assert |h.Keys| == |after.Keys| + |missing| by {
        assert h.Keys == after.Keys + missing;
      }
      var a :| a in missing;
      assert Less(a, sourceName);
      assert Less(sourceName, a);
      LessEqAntisymmetric(a, sourceName);
      assert false;
    }
  }

  /** Walks a non-empty key set keeping the smallest key seen: the first key `BTreeMap` iteration yields. */
  method MinKey(keys: set<string>) returns (k: string)
    requires keys != {}
    ensures k in keys && forall j :: j in keys ==> LessEq(k, j)
  {
    k :| k in keys;
    var rest := keys - {k};
    LessEqTotal(k, k);
    while rest != {}
      invariant k in keys && rest <= keys && k !in rest
      invariant forall j :: j in keys - rest ==> LessEq(k, j)
      decreases |rest|
    {
      var y :| y in rest;
      LessEqTotal(k, y);
      LessEqTotal(y, y);
      if LessEq(y, k) && y != k {
        forall j | j in keys - rest
          ensures LessEq(y, j)
        {
          LessEqTransitive(y, k, j);
        }
        k := y;
      }
      rest := rest - {y};
    }
  }

  /** `history.keys().take(count)`: the `count` smallest keys, in ascending order. */
  method SmallestKeys(h: History, count: nat) returns (keysToRemove: seq<string>, kept: set<string>)
    requires count <= |h|
    ensures |keysToRemove| == count
    ensures forall i :: 0 <= i < |keysToRemove| ==> keysToRemove[i] in h
    ensures kept == h.Keys - set k | k in keysToRemove
    ensures |kept| == |h| - count
    ensures forall a, b :: a in keysToRemove && b in kept ==> Less(a, b)
  {
    keysToRemove := [];
    kept := h.Keys;
    while |keysToRemove| < count
      invariant |keysToRemove| <= count
      invariant forall i :: 0 <= i < |keysToRemove| ==> keysToRemove[i] in h
      invariant kept == h.Keys - set k | k in keysToRemove
      invariant |kept| == |h| - |keysToRemove|
      invariant forall a, b :: a in keysToRemove && b in kept ==> Less(a, b)
    {
      var k := MinKey(kept);
      keysToRemove := keysToRemove + [k];
      kept := kept - {k};
    }
  }

  /**
   * `save_selections`: reads the history (an unparseable file counts as
   * empty, an unreadable one is an error), replaces the entry for
   * `sourceName`, then removes the smallest keys beyond twenty. Returns the
   * map that is written back.
   */
  method SaveSelections(file: StoredFile<History>, sourceName: string, files: seq<string>)
    returns (r: Result<History, string>)
    ensures file.DirUnavailable? ==> r == Err(file.error)
    ensures file.Unreadable? ==> r == Err("Failed to read history file: " + file.error)
    ensures !file.DirUnavailable? && !file.Unreadable? ==>
      r.Ok? && SavedAndCapped(BaseHistory(file), sourceName, files, r.value)
  {
    if file.DirUnavailable? {
      return Err(file.error);
    }
    if file.Unreadable? {
      return Err("Failed to read history file: " + file.error);
    }
    var history := BaseHistory(file);
    history := history[sourceName := files];
    ghost var before := history;
    if |history| > MaxHistorySize {
      var keysToRemove, kept := SmallestKeys(history, |history| - MaxHistorySize);
      for i := 0 to |keysToRemove|
        invariant history.Keys == before.Keys - set k | k in keysToRemove[..i]
        invariant forall k :: k in history ==> history[k] == before[k]
      {
        history := history - {keysToRemove[i]};
        assert keysToRemove[..i + 1] == keysToRemove[..i] + [keysToRemove[i]];
      }
      assert keysToRemove[..|keysToRemove|] == keysToRemove;
      assert history.Keys == kept;
    }
    r := Ok(history);
  }

  // The cap as its comment describes it: evicting the sources saved longest ago.

  /** One saved selection of an age-ordered history, oldest first. */
  datatype Entry = Entry(source: string, files: seq<string>)

  function Sources(h: seq<Entry>): (r: seq<string>)
    ensures |r| == |h| && forall i :: 0 <= i < |h| ==> r[i] == h[i].source
  {
    if h == [] then [] else Sources(h[..|h| - 1]) + [h[|h| - 1].source]
  }

  /** The history without the entries of `source`, order kept. */
  function Without(h: seq<Entry>, source: string): (r: seq<Entry>)
    ensures |r| <= |h|
    ensures forall e :: e in r <==> e in h && e.source != source
  {
    if h == [] then []
    else
      var init := Without(h[..|h| - 1], source);
      SplitLast(h);
      if h[|h| - 1].source == source then init else init + [h[|h| - 1]]
  }

  /** The newest stored list of `source`. */
  function Lookup(h: seq<Entry>, source: string): (r: Option<seq<string>>)
    ensures r.None? <==> forall i :: 0 <= i < |h| ==> h[i].source != source
  {
    if h == [] then None
    else if h[|h| - 1].source == source then Some(h[|h| - 1].files)
    else Lookup(h[..|h| - 1], source)
  }

  /** Saving moves `source` to the newest end; beyond the cap the oldest entries go. */
  function SaveRecent(h: seq<Entry>, source: string, files: seq<string>): (r: seq<Entry>)
    ensures 0 < |r| <= MaxHistorySize && r[|r| - 1] == Entry(source, files)
    ensures var all := Without(h, source) + [Entry(source, files)];
      |r| == (if |all| > MaxHistorySize then MaxHistorySize else |all|) && r == all[|all| - |r|..]
  {
    var all := Without(h, source) + [Entry(source, files)];
    if |all| > MaxHistorySize then all[|all| - MaxHistorySize..] else all
  }

  /** The source just saved is always kept, and loading it gives back what was saved. */
  lemma SaveRecentKeepsSaved(h: seq<Entry>, source: string, files: seq<string>)
    ensures Lookup(SaveRecent(h, source, files), source) == Some(files)
  {
  }

  lemma {:induction false} LookupWithout(h: seq<Entry>, source: string, other: string)
    requires other != source
    ensures Lookup(Without(h, source), other) == Lookup(h, other)
  {
    if h != [] {
      LookupWithout(h[..|h| - 1], source, other);
    }
  }

  /** A source that survives keeps the list it had: saving one source never rewrites another. */
  lemma SaveRecentKeepsOthers(h: seq<Entry>, source: string, files: seq<string>, other: string)
    requires other != source
    requires Lookup(SaveRecent(h, source, files), other).Some?
    ensures Lookup(SaveRecent(h, source, files), other) == Lookup(h, other)
  {
    var w := Without(h, source);
    var all := w + [Entry(source, files)];
    var r := SaveRecent(h, source, files);
    var d := |all| - |r|;
    assert r[..|r| - 1] == w[d..];
    assert Lookup(r, other) == Lookup(w[d..], other);
    LookupSuffix(w, d, other);
    LookupWithout(h, source, other);
  }

  /** Dropping the oldest entries keeps the newest list of any source still present. */
  lemma {:induction false} LookupSuffix(h: seq<Entry>, k: nat, source: string)
    requires k <= |h|
    requires Lookup(h[k..], source).Some?
    ensures Lookup(h[k..], source) == Lookup(h, source)
    decreases |h|
  {
    if |h| > k && h[|h| - 1].source != source {
      assert h[k..][..|h| - k - 1] == h[..|h| - 1][k..];
      LookupSuffix(h[..|h| - 1], k, source);
    }
  }

  /** Saving never brings in a source other than the one saved, and that one becomes the newest. */
  lemma SaveRecentSources(h: seq<Entry>, source: string, files: seq<string>)
    ensures |Sources(SaveRecent(h, source, files))| > 0
    ensures Sources(SaveRecent(h, source, files))[|SaveRecent(h, source, files)| - 1] == source
    ensures forall x :: x in Sources(SaveRecent(h, source, files)) ==> x == source || x in Sources(h)
  {
    var w := Without(h, source);
    var all := w + [Entry(source, files)];
    var r := SaveRecent(h, source, files);
    var d := |all| - |r|;
    forall x | x in Sources(r)
      ensures x == source || x in Sources(h)
    {
      var i :| 0 <= i < |r| && Sources(r)[i] == x;
      assert r[i] == all[d + i];
      if d + i < |w| {
        assert w[d + i] in w;
        var k :| 0 <= k < |h| && h[k] == w[d + i];
        assert Sources(h)[k] == x;
      }
    }
  }

  predicate DistinctSources(h: seq<Entry>)
  {
    forall i, j :: 0 <= i < j < |h| ==> h[i].source != h[j].source
  }

  /** Each source appears at most once, as in the map the program stores. */
  lemma SaveRecentDistinct(h: seq<Entry>, source: string, files: seq<string>)
    requires DistinctSources(h)
    ensures DistinctSources(SaveRecent(h, source, files))
  {
    var w := Without(h, source);
    WithoutDistinct(h, source);
    var all := w + [Entry(source, files)];
    forall i, j | 0 <= i < j < |all|
      ensures all[i].source != all[j].source
    {
      if j == |w| {
        assert all[i] == w[i] && w[i] in w;
        assert all[j].source == source;
      } else {
        assert all[i] == w[i] && all[j] == w[j];
      }
    }
    var r := SaveRecent(h, source, files);
    var d := |all| - |r|;
    assert forall i :: 0 <= i < |r| ==> r[i] == all[d + i];
  }

  lemma {:induction false} WithoutDistinct(h: seq<Entry>, source: string)
    requires DistinctSources(h)
    ensures DistinctSources(Without(h, source))
  {
    if h != [] {
      var init := h[..|h| - 1];
      WithoutDistinct(init, source);
      var w := Without(init, source);
      var last := h[|h| - 1];
      if last.source == source {
        assert Without(h, source) == w;
      } else {
        forall i | 0 <= i < |w|
          ensures w[i].source != last.source
        {
          assert w[i] in w;
          var k :| 0 <= k < |init| && init[k] == w[i];
          assert h[k] == init[k];
        }
        var W := w + [last];
        assert Without(h, source) == W;
        forall i, j | 0 <= i < j < |W|
          ensures W[i].source != W[j].source
        {
          if j == |w| {
            assert W[i] == w[i] && W[j] == last;
          } else {
            assert W[i] == w[i] && W[j] == w[j];
          }
        }
      }
    }
  }

  /** A fresh source saved into a full history survives, unlike under the key-ordered cap. */
  lemma SaveRecentKeepsFreshSmallest(h: seq<Entry>, source: string, files: seq<string>)
    requires |h| >= MaxHistorySize
    requires forall i :: 0 <= i < |h| ==> Less(source, h[i].source)
    ensures |SaveRecent(h, source, files)| == MaxHistorySize
    ensures Entry(source, files) in SaveRecent(h, source, files)
  {
    var r := SaveRecent(h, source, files);
    assert r[|r| - 1] in r;
    forall i | 0 <= i < |h|
      ensures h[i].source != source
    {
      if h[i].source == source {
        LessEqTotal(source, source);
      }
    }
    assert forall e :: e in h ==> e in Without(h, source);
    WithoutKeepsAll(h, source);
  }

  lemma {:induction false} WithoutKeepsAll(h: seq<Entry>, source: string)
    requires forall i :: 0 <= i < |h| ==> h[i].source != source
    ensures Without(h, source) == h
  {
    if h != [] {
      WithoutKeepsAll(h[..|h| - 1], source);
      SplitLast(h);
    }
  }
}
