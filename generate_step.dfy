/**
 * `src/components/Step3Generate.tsx`: the generate button. The save dialog
 * and the `generate_output` command are asynchronous calls whose answers are
 * parameters here; the notifications shown are returned.
 */
module GenerateStep {
  import opened Wrappers
  import opened Strings

  const BlankNameWarning := "Inserisci il nome della source!"
  const NoFilesWarning := "Seleziona almeno un file!"
  const ErrorPrefix := "Errore durante la generazione del file: "
  const OutputSuffix := "_output.txt"

  /** `sourceName.replace(/\s+/g, "_")`: every run of white space becomes one '_'. */
  function UnderscoreRuns(s: string): (r: string)
    ensures |r| <= |s|
    ensures forall i :: 0 <= i < |r| ==> !IsWhitespace(r[i])
  {
    if s == [] then []
    else if IsWhitespace(s[0]) then "_" + UnderscoreRuns(SkipWhitespace(s))
    else [s[0]] + UnderscoreRuns(s[1..])
  }

  /** The text after the run of white space that starts `s`. */
  function SkipWhitespace(s: string): (r: string)
    requires |s| > 0 && IsWhitespace(s[0])
    ensures |r| < |s| && r == s[|s| - |r|..]
    ensures r == [] || !IsWhitespace(r[0])
    ensures AllWhitespace(s[..|s| - |r|])
    decreases |s|
  {
    if |s| > 1 && IsWhitespace(s[1]) then
      var r := SkipWhitespace(s[1..]);
      assert s[1..][..|s| - 1 - |r|] == s[1..|s| - |r|];
      r
    else s[1..]
  }

  /** `s` with its white space and its underscores removed: what a replacement must keep, in order. */
  function Letters(s: string): (r: string)
  {
    if s == [] then []
    else (if IsWhitespace(s[0]) || s[0] == '_' then [] else [s[0]]) + Letters(s[1..])
  }

  /** `s` with its underscores removed. */
  function DropUnderscores(s: string): (r: string)
  {
    if s == [] then []
    else (if s[0] == '_' then [] else [s[0]]) + DropUnderscores(s[1..])
  }

  lemma {:induction false} LettersOfWhitespace(s: string)
    requires AllWhitespace(s)
    ensures Letters(s) == []
  {
    if s != [] {
      LettersOfWhitespace(s[1..]);
    }
  }

  lemma {:induction false} LettersAppend(a: string, b: string)
    ensures Letters(a + b) == Letters(a) + Letters(b)
  {
    if a == [] {
      assert a + b == b;
    } else {
      assert (a + b)[1..] == a[1..] + b;
      LettersAppend(a[1..], b);
    }
  }

  /**
   * The replacement keeps every other character in its place and order: it
   * only turns white space into underscores.
   */
  lemma {:induction false} UnderscoreRunsKeepsLetters(s: string)
    ensures DropUnderscores(UnderscoreRuns(s)) == Letters(s)
    decreases |s|
  {
    if s != [] {
      if IsWhitespace(s[0]) {
        var t := SkipWhitespace(s);
        UnderscoreRunsKeepsLetters(t);
        assert s == s[..|s| - |t|] + t;
        LettersAppend(s[..|s| - |t|], t);
        LettersOfWhitespace(s[..|s| - |t|]);
        assert ("_" + UnderscoreRuns(t))[1..] == UnderscoreRuns(t);
      } else {
        UnderscoreRunsKeepsLetters(s[1..]);
        assert ([s[0]] + UnderscoreRuns(s[1..]))[1..] == UnderscoreRuns(s[1..]);
      }
    }
  }

  /** The run `SkipWhitespace` removes is the whole leading run: any split into a white-space head and a tail not starting with white space is that one. */
  lemma SkipWhitespaceUnique(s: string, k: nat)
    requires 0 < k <= |s| && IsWhitespace(s[0])
    requires AllWhitespace(s[..k])
    requires k == |s| || !IsWhitespace(s[k])
    ensures SkipWhitespace(s) == s[k..]
  {
    var r := SkipWhitespace(s);
    var j := |s| - |r|;
    WhitespaceAt(s, k, j);
    WhitespaceAt(s, j, k);
    assert r != [] ==> r[0] == s[j];
  }

  /** Position `j` of a string whose first `k` characters are white space, with `j < k`, is white space. */
  lemma WhitespaceAt(s: string, k: nat, j: nat)
    requires k <= |s| && AllWhitespace(s[..k])
    ensures j < k ==> IsWhitespace(s[j])
  {
    if j < k {
      assert s[..k][j] == s[j];
    }
  }

  /** Each run of white space between two other characters becomes exactly one '_'. */
  lemma {:induction false} UnderscoreRunsCollapse(x: string, w: string, y: string)
    requires x == [] || !IsWhitespace(x[|x| - 1])
    requires w != [] && AllWhitespace(w)
    requires y == [] || !IsWhitespace(y[0])
    ensures UnderscoreRuns(x + w + y) == UnderscoreRuns(x) + "_" + UnderscoreRuns(y)
    decreases |x|
  {
    if x == [] {
      CollapseAlone(x, w, y);
    } else if IsWhitespace(x[0]) {
      var x' := CollapseLeadingRun(x, w + y);
      Assoc(x, w, y);
      Assoc(x', w, y);
      UnderscoreRunsCollapse(x', w, y);
      PrependStep(UnderscoreRuns(x + w + y), UnderscoreRuns(x' + w + y), UnderscoreRuns(x), UnderscoreRuns(x'), UnderscoreRuns(y), "_");
    } else {
      var c := CollapseLetter(x, w + y);
      Assoc(x, w, y);
      Assoc(x[1..], w, y);
      UnderscoreRunsCollapse(x[1..], w, y);
      PrependStep(UnderscoreRuns(x + w + y), UnderscoreRuns(x[1..] + w + y), UnderscoreRuns(x), UnderscoreRuns(x[1..]), UnderscoreRuns(y), [c]);
    }
  }

  /** The same text put in front of both sides keeps "one '_' between the two parts". */
  lemma PrependStep(whole: string, whole': string, left: string, left': string, right: string, h: string)
    requires whole == h + whole' && left == h + left'
    requires whole' == left' + "_" + right
    ensures whole == left + "_" + right
  {
    Assoc(h, left' + "_", right);
    Assoc(h, left', "_");
  }

  lemma CollapseLetter(x: string, z: string) returns (c: char)
    requires x != [] && !IsWhitespace(x[0])
    ensures c == x[0]
    ensures UnderscoreRuns(x + z) == [c] + UnderscoreRuns(x[1..] + z)
    ensures UnderscoreRuns(x) == [c] + UnderscoreRuns(x[1..])
  {
    c := x[0];
    assert (x + z)[1..] == x[1..] + z;
  }

  lemma CollapseAlone(x: string, w: string, y: string)
    requires x == [] && w != [] && AllWhitespace(w)
    requires y == [] || !IsWhitespace(y[0])
    ensures UnderscoreRuns(x + w + y) == UnderscoreRuns(x) + "_" + UnderscoreRuns(y)
  {
    var s := w + y;
    assert x + w == w;
    assert s[..|w|] == w;
    SkipWhitespaceUnique(s, |w|);
    assert s[|w|..] == y;
  }

  /** A leading run of `x` that does not reach its end is skipped inside `x + z` just as in `x`. */
  lemma CollapseLeadingRun(x: string, z: string) returns (x': string)
    requires x != [] && IsWhitespace(x[0]) && !IsWhitespace(x[|x| - 1])
    ensures x' == SkipWhitespace(x) && |x'| < |x|
    ensures x' != [] && !IsWhitespace(x'[|x'| - 1])
    ensures UnderscoreRuns(x + z) == "_" + UnderscoreRuns(x' + z)
    ensures UnderscoreRuns(x) == "_" + UnderscoreRuns(x')
  {
    x' := SkipWhitespace(x);
    SkipKeepsLast(x);
    SkipInside(x, z);
  }

  lemma SkipKeepsLast(x: string)
    requires x != [] && IsWhitespace(x[0]) && !IsWhitespace(x[|x| - 1])
    ensures SkipWhitespace(x) != [] && SkipWhitespace(x)[|SkipWhitespace(x)| - 1] == x[|x| - 1]
  {
    var x' := SkipWhitespace(x);
    var k := |x| - |x'|;
    assert k < |x| by {
      assert forall i :: 0 <= i < k ==> x[..k][i] == x[i];
    }
  }

  lemma SkipInside(x: string, z: string)
    requires x != [] && IsWhitespace(x[0]) && SkipWhitespace(x) != []
    ensures SkipWhitespace(x + z) == SkipWhitespace(x) + z
  {
    var x' := SkipWhitespace(x);
    var k := |x| - |x'|;
    var s := x + z;
    SlicesOfConcat(x, z, k);
    assert AllWhitespace(s[..k]) by {
      assert s[..k] == x[..k];
    }
    assert IsWhitespace(s[0]) by {
      assert s[0] == x[0];
    }
    assert !IsWhitespace(s[k]) by {
      assert s[k] == x'[0];
    }
    SkipWhitespaceUnique(s, k);
  }

  /** A name without white space is left as it is. */
  lemma {:induction false} UnderscoreRunsIdentity(s: string)
    requires forall i :: 0 <= i < |s| ==> !IsWhitespace(s[i])
    ensures UnderscoreRuns(s) == s
  {
    if s != [] {
      UnderscoreRunsIdentity(s[1..]);
    }
  }

  /** Replacing twice is replacing once. */
  lemma UnderscoreRunsIdempotent(s: string)
    ensures UnderscoreRuns(UnderscoreRuns(s)) == UnderscoreRuns(s)
  {
    UnderscoreRunsIdentity(UnderscoreRuns(s));
  }

  /** The file name the save dialog proposes. */
  function DefaultFileName(sourceName: string): (r: string)
    ensures |r| <= |sourceName| + |OutputSuffix|
    ensures |r| >= |OutputSuffix| && r[|r| - |OutputSuffix|..] == OutputSuffix
    ensures forall i :: 0 <= i < |r| ==> !IsWhitespace(r[i])
  {
    var r := UnderscoreRuns(sourceName) + OutputSuffix;
    assert forall i :: 0 <= i < |OutputSuffix| ==> !IsWhitespace(OutputSuffix[i]);
    assert forall i :: |r| - |OutputSuffix| <= i < |r| ==> r[i] == OutputSuffix[i - (|r| - |OutputSuffix|)];
    r
  }

  /** In the proposed name, each run of white space between two other characters is one '_'. */
  lemma DefaultFileNameCollapses(x: string, w: string, y: string)
    requires x == [] || !IsWhitespace(x[|x| - 1])
    requires w != [] && AllWhitespace(w)
    requires y == [] || !IsWhitespace(y[0])
    ensures DefaultFileName(x + w + y) == UnderscoreRuns(x) + "_" + UnderscoreRuns(y) + OutputSuffix
  {
    UnderscoreRunsCollapse(x, w, y);
  }

  /** "a  b" is proposed as "a_b_output.txt". */
  lemma DefaultFileNameExample()
    ensures DefaultFileName("a  b") == "a_b_output.txt"
  {
    UnderscoreRunsExample();
    assert DefaultFileName("a  b") == "a_b" + OutputSuffix;
  }

  lemma UnderscoreRunsExample()
    ensures UnderscoreRuns("a  b") == "a_b"
  {
    assert UnderscoreRuns("a") == "a" by {
      UnderscoreRunsIdentity("a");
    }
    assert UnderscoreRuns("b") == "b" by {
      UnderscoreRunsIdentity("b");
    }
    assert UnderscoreRuns("a  b") == UnderscoreRuns("a") + "_" + UnderscoreRuns("b") by {
      assert "a" + "  " + "b" == "a  b";
      UnderscoreRunsCollapse("a", "  ", "b");
    }
  }

  /** The button is disabled while generating, for a blank name and for an empty selection. */
  predicate ButtonDisabled(generating: bool, sourceName: string, selectedFiles: seq<string>)
  {
    generating || Trim(sourceName) == "" || |selectedFiles| == 0
  }

  /** The button is enabled exactly when a non-blank name and at least one file are given and nothing runs. */
  lemma ButtonEnabledIff(generating: bool, sourceName: string, selectedFiles: seq<string>)
    ensures !ButtonDisabled(generating, sourceName, selectedFiles)
      <==> !generating && !AllWhitespace(sourceName) && |selectedFiles| > 0
  {
    TrimEmptyIff(sourceName);
  }

  datatype Kind = Warning | Success | Error
  datatype Notice = Notice(text: string, kind: Kind)

  /** The arguments of `generate_output`. */
  datatype Invocation = Invocation(selectedPaths: seq<string>, sourceName: string, outputPath: string)

  /** A save-dialog path counts as chosen when it is a non-empty string. */
  predicate Chosen(answer: Option<string>)
  {
    answer.Some? && answer.value != ""
  }

  class GenerateButton {
    var generating: bool

    constructor ()
      ensures !generating
    {
      generating := false;
    }

    /**
     * `handleGenerate`. `dialog` is what `save` answered (an error, no path
     * or a path) and `generated` what `generate_output` answered. Returns
     * the dialog's default path when the dialog opens, the command's
     * arguments when it runs, the notice shown and whether `onSuccess` ran.
     */
    method HandleGenerate(sourceName: string, selectedFiles: seq<string>,
                          dialog: Result<Option<string>, string>, generated: Result<string, string>)
      returns (defaultPath: Option<string>, invoked: Option<Invocation>, notice: Option<Notice>, succeeded: bool)
      modifies this
      ensures Trim(sourceName) == "" ==>
        defaultPath.None? && invoked.None? && notice == Some(Notice(BlankNameWarning, Warning))
      ensures Trim(sourceName) != "" && |selectedFiles| == 0 ==>
        defaultPath.None? && invoked.None? && notice == Some(Notice(NoFilesWarning, Warning))
      ensures defaultPath.None? ==> generating == old(generating) && !succeeded
      ensures defaultPath.Some? <==> Trim(sourceName) != "" && |selectedFiles| > 0
      ensures defaultPath.Some? ==> defaultPath.value == DefaultFileName(sourceName) && !generating
      ensures invoked.Some? <==> defaultPath.Some? && dialog.Ok? && Chosen(dialog.value)
      ensures invoked.Some? ==> invoked.value == Invocation(selectedFiles, Trim(sourceName), dialog.value.value)
      ensures defaultPath.Some? && dialog.Err? ==> notice == Some(Notice(ErrorPrefix + dialog.error, Error))
      ensures defaultPath.Some? && dialog.Ok? && !Chosen(dialog.value) ==> notice.None?
      ensures invoked.Some? ==>
        notice == Some(if generated.Ok? then Notice(generated.value, Success) else Notice(ErrorPrefix + generated.error, Error))
      ensures succeeded <==> invoked.Some? && generated.Ok?
    {
      defaultPath, invoked, notice, succeeded := None, None, None, false;
      if Trim(sourceName) == "" {
        notice := Some(Notice(BlankNameWarning, Warning));
        return;
      }
      if |selectedFiles| == 0 {
        notice := Some(Notice(NoFilesWarning, Warning));
        return;
      }
      // try
      defaultPath := Some(DefaultFileName(sourceName));
      if dialog.Err? {
        notice := Some(Notice(ErrorPrefix + dialog.error, Error));
      } else if Chosen(dialog.value) {
        generating := true;
        invoked := Some(Invocation(selectedFiles, Trim(sourceName), dialog.value.value));
        if generated.Ok? {
          notice := Some(Notice(generated.value, Success));
          succeeded := true;
        } else {
          notice := Some(Notice(ErrorPrefix + generated.error, Error));
        }
      }
      // finally
      generating := false;
    }
  }

  /**
   * While the button is enabled, a click leaves `generating` false on every
   * path: the early returns do not touch it and `finally` resets it.
   */
  method ClickEnabledButton(b: GenerateButton, sourceName: string, selectedFiles: seq<string>,
                            dialog: Result<Option<string>, string>, generated: Result<string, string>)
    returns (invoked: Option<Invocation>)
    requires !ButtonDisabled(b.generating, sourceName, selectedFiles)
    modifies b
    ensures !b.generating
    ensures invoked.Some? <==> dialog.Ok? && Chosen(dialog.value)
  {
    var defaultPath, notice, succeeded;
    defaultPath, invoked, notice, succeeded := b.HandleGenerate(sourceName, selectedFiles, dialog, generated);
  }
}
