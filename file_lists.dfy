/**
 * Path lists as the front end handles them: the set of a list, duplicate
 * freedom, and the merge `[...existing, ...incoming.filter(f =>
 * !existing.includes(f))]` used both when a folder selection is confirmed
 * (`src/App.tsx`) and when files are added (`src/components/Step2FileSelection.tsx`).
 */
module FileLists {
  import Strings

  function Elems(s: seq<string>): set<string>
  {
    set p | p in s
  }

  lemma ElemsConcat(a: seq<string>, b: seq<string>)
    ensures Elems(a + b) == Elems(a) + Elems(b)
  {
  }

  predicate NoDuplicates(s: seq<string>)
  {
    forall i, j :: 0 <= i < j < |s| ==> s[i] != s[j]
  }

  lemma {:induction false} NoDuplicatesCardinality(s: seq<string>)
    requires NoDuplicates(s)
    ensures |Elems(s)| == |s|
  {
    if s != [] {
      var init := s[..|s| - 1];
      NoDuplicatesCardinality(init);
      assert s == init + [s[|s| - 1]];
      assert s[|s| - 1] !in init;
      assert Elems(s) == Elems(init) + {s[|s| - 1]};
    }
  }

  /** `incoming.filter(f => !existing.includes(f))`: order kept, repeats within `incoming` kept. */
  function KeepAbsent(incoming: seq<string>, existing: seq<string>): (r: seq<string>)
    ensures forall x :: x in r <==> x in incoming && x !in existing
    ensures |r| <= |incoming|
    ensures (forall x :: x in incoming ==> x in existing) ==> r == []
  {
    if incoming == [] then []
    else
      var init := KeepAbsent(incoming[..|incoming| - 1], existing);
      var last := incoming[|incoming| - 1];
      assert incoming == incoming[..|incoming| - 1] + [last];
      if last in existing then init else init + [last]
  }

  /** The filter distributes over concatenation, so the kept files stay in their given order. */
  lemma {:induction false} KeepAbsentConcat(a: seq<string>, b: seq<string>, existing: seq<string>)
    ensures KeepAbsent(a + b, existing) == KeepAbsent(a, existing) + KeepAbsent(b, existing)
    decreases |b|
  {
    if b == [] {
      assert a + b == a;
    } else {
      var b' := b[..|b| - 1];
      var x := b[|b| - 1];
      Strings.DropLastOfConcat(a, b);
      assert (a + b)[|a + b| - 1] == x;
      KeepAbsentConcat(a, b', existing);
      Strings.Assoc(KeepAbsent(a, existing), KeepAbsent(b', existing), if x in existing then [] else [x]);
    }
  }

  /** A single file is kept exactly when it is not already present. */
  lemma KeepAbsentSingle(x: string, existing: seq<string>)
    ensures KeepAbsent([x], existing) == (if x in existing then [] else [x])
  {
    assert [x][..0] == [];
  }

  /** The first file kept is the first incoming file that is not already present. */
  lemma {:induction false} KeepAbsentFirst(incoming: seq<string>, existing: seq<string>)
    requires |KeepAbsent(incoming, existing)| > 0
    ensures exists i ::
      && 0 <= i < |incoming| && KeepAbsent(incoming, existing)[0] == incoming[i]
      && incoming[i] !in existing && (forall j :: 0 <= j < i ==> incoming[j] in existing)
    decreases |incoming|
  {
    var rest := incoming[1..];
    Strings.SplitAt(incoming, 1);
    assert incoming[..1] == [incoming[0]];
    KeepAbsentConcat([incoming[0]], rest, existing);
    KeepAbsentSingle(incoming[0], existing);
    if incoming[0] !in existing {
      assert KeepAbsent(incoming, existing)[0] == incoming[0];
    } else {
      KeepAbsentFirst(rest, existing);
      var i :|
        && 0 <= i < |rest| && KeepAbsent(rest, existing)[0] == rest[i]
        && rest[i] !in existing && (forall j :: 0 <= j < i ==> rest[j] in existing);
      forall j | 0 <= j < i + 1
        ensures incoming[j] in existing
      {
        if j > 0 {
          assert incoming[j] == rest[j - 1];
        }
      }
      assert KeepAbsent(incoming, existing)[0] == incoming[i + 1];
    }
  }

  /** The merged list. */
  function MergeNew(existing: seq<string>, incoming: seq<string>): seq<string>
  {
    existing + KeepAbsent(incoming, existing)
  }

  /**
   * The old list is kept as a prefix; everything appended is new and comes
   * from `incoming`; every incoming path ends up in the result; and the files
   * of each leading part of `incoming` are appended before those of the rest.
   */
  lemma MergeKeepsAndAppends(existing: seq<string>, incoming: seq<string>)
    ensures MergeNew(existing, incoming)[..|existing|] == existing
    ensures forall x :: x in MergeNew(existing, incoming)[|existing|..] ==> x in incoming && x !in existing
    ensures Elems(MergeNew(existing, incoming)) == Elems(existing) + Elems(incoming)
    ensures forall k :: 0 <= k <= |incoming| ==>
      MergeNew(existing, incoming) == MergeNew(existing, incoming[..k]) + KeepAbsent(incoming[k..], existing)
  {
    var r := MergeNew(existing, incoming);
    assert r[|existing|..] == KeepAbsent(incoming, existing);
    forall k | 0 <= k <= |incoming|
      ensures r == MergeNew(existing, incoming[..k]) + KeepAbsent(incoming[k..], existing)
    {
      MergeSplit(existing, incoming, k);
    }
  }

  lemma MergeSplit(existing: seq<string>, incoming: seq<string>, k: nat)
    requires k <= |incoming|
    ensures MergeNew(existing, incoming) == MergeNew(existing, incoming[..k]) + KeepAbsent(incoming[k..], existing)
  {
    Strings.SplitAt(incoming, k);
    KeepAbsentConcat(incoming[..k], incoming[k..], existing);
    Strings.Assoc(existing, KeepAbsent(incoming[..k], existing), KeepAbsent(incoming[k..], existing));
  }

  /** When neither list repeats a path, neither does the merge. */
  lemma {:induction false} MergeNoDuplicates(existing: seq<string>, incoming: seq<string>)
    requires NoDuplicates(existing) && NoDuplicates(incoming)
    ensures NoDuplicates(MergeNew(existing, incoming))
  {
    var added := KeepAbsent(incoming, existing);
    KeepAbsentNoDuplicates(incoming, existing);
    var r := existing + added;
    forall i, j | 0 <= i < j < |r|
      ensures r[i] != r[j]
    {
      if j < |existing| {
        assert r[i] == existing[i] && r[j] == existing[j];
      } else if i < |existing| {
        assert r[i] == existing[i] && r[j] == added[j - |existing|];
        assert added[j - |existing|] in added;
      } else if |existing| <= i {
        assert r[i] == added[i - |existing|] && r[j] == added[j - |existing|];
      }
    }
  }

  lemma {:induction false} KeepAbsentNoDuplicates(incoming: seq<string>, existing: seq<string>)
    requires NoDuplicates(incoming)
    ensures NoDuplicates(KeepAbsent(incoming, existing))
  {
    if incoming != [] {
      var init := incoming[..|incoming| - 1];
      var last := incoming[|incoming| - 1];
      KeepAbsentNoDuplicates(init, existing);
      assert last !in init;
    }
  }

  /** Confirming the same files twice changes nothing the second time. */
  lemma MergeIdempotent(existing: seq<string>, incoming: seq<string>)
    ensures MergeNew(MergeNew(existing, incoming), incoming) == MergeNew(existing, incoming)
  {
    var r := MergeNew(existing, incoming);
    MergeKeepsAndAppends(existing, incoming);
    var again := KeepAbsent(incoming, r);
    assert forall x :: x in incoming ==> x in Elems(r);
  }
}
