/**
 * `src/components/Step1SourceName.tsx`: the source-name field, the recent
 * sources it suggests while the user types, and the flag that shows or
 * hides the suggestion list.
 */
module SourceNameStep {
  import opened Strings

  /** Whether `item` is suggested while the field holds `name`. */
  predicate Suggests(item: string, name: string)
  {
    Contains(Lower(item), Lower(name))
  }

  /** `filteredSuggestions`: the recent sources that contain the typed name, ignoring case. */
  function FilteredSuggestions(recent: seq<string>, name: string): (r: seq<string>)
    ensures |r| <= |recent|
    ensures forall x :: x in r <==> x in recent && Suggests(x, name)
  {
    if recent == [] then []
    else
      var init := FilteredSuggestions(recent[..|recent| - 1], name);
      var last := recent[|recent| - 1];
      assert recent == recent[..|recent| - 1] + [last];
      if Suggests(last, name) then init + [last] else init
  }

  /** Filtering keeps the original order: it distributes over concatenation. */
  lemma {:induction false} FilterConcat(a: seq<string>, b: seq<string>, name: string)
    ensures FilteredSuggestions(a + b, name) == FilteredSuggestions(a, name) + FilteredSuggestions(b, name)
    decreases |b|
  {
    if b == [] {
      assert a + b == a;
    } else {
      var b' := b[..|b| - 1];
      assert (a + b)[..|a + b| - 1] == a + b';
      FilterConcat(a, b', name);
    }
  }

  /** A suggestion list is a sub-sequence of the recent sources: a single source is kept exactly when it matches. */
  lemma FilterSingle(item: string, name: string)
    ensures FilteredSuggestions([item], name) == (if Suggests(item, name) then [item] else [])
  {
    assert [item][..0] == [];
  }

  /** Every string contains the empty string. */
  lemma ContainsEmpty(s: string)
    ensures Contains(s, "")
  {
    assert OccursAt(s, "", 0);
  }

  /** An empty field suggests every recent source, in order. */
  lemma {:induction false} EmptyNameSuggestsAll(recent: seq<string>)
    ensures FilteredSuggestions(recent, "") == recent
  {
    if recent != [] {
      EmptyNameSuggestsAll(recent[..|recent| - 1]);
      ContainsEmpty(Lower(recent[|recent| - 1]));
      assert Lower("") == "";
      assert recent[..|recent| - 1] + [recent[|recent| - 1]] == recent;
    }
  }

  /** The component's state, with the two props it reads. */
  class SourceNameField {
    /** The `sourceName` prop, which the parent sets through `onSourceNameChange`. */
    var sourceName: string
    /** The `recentSources` prop. */
    var recentSources: seq<string>
    var showSuggestions: bool

    constructor (sourceName: string, recentSources: seq<string>)
      ensures this.sourceName == sourceName && this.recentSources == recentSources
      ensures !showSuggestions
    {
      this.sourceName := sourceName;
      this.recentSources := recentSources;
      showSuggestions := false;
    }

    /** The dropdown is rendered only while shown and non-empty. */
    predicate DropdownVisible()
      reads this
    {
      showSuggestions && |FilteredSuggestions(recentSources, sourceName)| > 0
    }

    /** `handleSelect`: the chosen suggestion becomes the name and the list hides. */
    method HandleSelect(name: string) returns (reported: string)
      modifies this`sourceName, this`showSuggestions
      ensures reported == name && sourceName == name
      ensures !showSuggestions && !DropdownVisible()
    {
      reported := name;
      sourceName := name;
      showSuggestions := false;
    }

    /** `onChange` of the input: the typed text is reported and the list is shown. */
    method HandleChange(value: string) returns (reported: string)
      modifies this`sourceName, this`showSuggestions
      ensures reported == value && sourceName == value && showSuggestions
      ensures DropdownVisible() <==> |FilteredSuggestions(recentSources, value)| > 0
    {
      reported := value;
      sourceName := value;
      showSuggestions := true;
    }

    /** `onFocus` of the input: the list is shown. */
    method HandleFocus()
      modifies this`showSuggestions
      ensures showSuggestions
      ensures DropdownVisible() <==> |FilteredSuggestions(recentSources, sourceName)| > 0
    {
      showSuggestions := true;
    }

    /** The document's `mousedown` listener: a click outside the field hides the list. */
    method HandleMouseDown(insideField: bool)
      modifies this`showSuggestions
      ensures showSuggestions == (old(showSuggestions) && insideField)
    {
      if !insideField {
        showSuggestions := false;
      }
    }
  }

  /** Focusing an empty field shows every recent source when there is one. */
  lemma EmptyFieldShowsAll(recent: seq<string>)
    ensures |FilteredSuggestions(recent, "")| > 0 <==> |recent| > 0
  {
    EmptyNameSuggestsAll(recent);
  }
}
