/**
 * `convert_ani_to_cur_working.py`: finds an embedded ICO or CUR image in an
 * animated cursor by scanning for the two header signatures and taking the
 * first candidate whose header looks plausible. The file is abstracted as
 * its bytes, and writing the result as a flag.
 */
module AniToCur {
  import opened Wrappers
  import opened Bytes

  /** Reserved word 0, then type 2 (cursor) or 1 (icon). */
  const CurMagic: seq<byte> := [0, 0, 2, 0]
  const IcoMagic: seq<byte> := [0, 0, 1, 0]

  const HeaderSize: nat := 6
  const DirEntrySize: nat := 16
  const MaxImages: nat := 100
  const MaxTrustedImageSize: nat := 10 * 1024 * 1024
  const MinImageAllowance: nat := 2048

  predicate MagicAt(data: seq<byte>, magic: seq<byte>, i: nat)
  {
    i + |magic| <= |data| && data[i..i + |magic|] == magic
  }

  /** `bytes.find(magic, start)`: the first occurrence at or after `start`, or -1. */
  function Find(data: seq<byte>, magic: seq<byte>, start: nat): (r: int)
    ensures r == -1 || (start <= r < |data| + 1 && MagicAt(data, magic, r))
    ensures forall i :: start <= i && (r == -1 || i < r) ==> !MagicAt(data, magic, i)
    decreases |data| - start
  {
    if start + |magic| > |data| then -1
    else if MagicAt(data, magic, start) then start
    else Find(data, magic, start + 1)
  }

  /** Every position at or after `start` where `magic` begins, ascending. */
  function Occurrences(data: seq<byte>, magic: seq<byte>, start: nat): (r: seq<nat>)
    decreases |data| - start
  {
    if start >= |data| then []
    else (if MagicAt(data, magic, start) then [start] else []) + Occurrences(data, magic, start + 1)
  }

  lemma {:induction false} OccurrencesSkip(data: seq<byte>, magic: seq<byte>, start: nat, found: nat)
    requires start <= found < |data|
    requires forall i :: start <= i < found ==> !MagicAt(data, magic, i)
    ensures Occurrences(data, magic, start) ==
      (if MagicAt(data, magic, found) then [found] else []) + Occurrences(data, magic, found + 1)
    decreases found - start
  {
    if start < found {
      OccurrencesSkip(data, magic, start + 1, found);
    }
  }

  lemma {:induction false} OccurrencesNone(data: seq<byte>, magic: seq<byte>, start: nat)
    requires forall i :: start <= i ==> !MagicAt(data, magic, i)
    ensures Occurrences(data, magic, start) == []
    decreases |data| - start
  {
    if start < |data| {
      OccurrencesNone(data, magic, start + 1);
    }
  }

  /** One of the two `while True` loops: `find` from `pos`, record, step past it. */
  method FindAll(data: seq<byte>, magic: seq<byte>) returns (positions: seq<nat>)
    requires |magic| > 0
    ensures positions == Occurrences(data, magic, 0)
  {
    positions := [];
    var pos := 0;
    while true
      invariant pos <= |data|
      invariant positions + Occurrences(data, magic, pos) == Occurrences(data, magic, 0)
      decreases |data| - pos
    {
      var found := Find(data, magic, pos);
      if found == -1 {
        OccurrencesNone(data, magic, pos);
        assert positions + [] == positions;
        break;
      }
      OccurrencesSkip(data, magic, pos, found);
      assert positions + [found] + Occurrences(data, magic, found + 1) == positions + Occurrences(data, magic, pos);
      positions := positions + [found];
      pos := found + 1;
    }
  }

  /** A candidate header position, and whether it carries the icon signature. */
  datatype Candidate = Candidate(pos: nat, isIco: bool)

  function Tagged(positions: seq<nat>, isIco: bool): (r: seq<Candidate>)
    ensures |r| == |positions|
  {
    seq(|positions|, k requires 0 <= k < |positions| => Candidate(positions[k], isIco))
  }

  /** Every signature position at or after `start`, ascending: what `positions.sort` produces. */
  function CandidatesFrom(data: seq<byte>, start: nat): seq<Candidate>
    decreases |data| - start
  {
    if start >= |data| then []
    else
      (if MagicAt(data, CurMagic, start) then [Candidate(start, false)]
       else if MagicAt(data, IcoMagic, start) then [Candidate(start, true)]
       else [])
      + CandidatesFrom(data, start + 1)
  }

  predicate StrictlyAscending(cs: seq<Candidate>)
  {
    forall j, k :: 0 <= j < k < |cs| ==> cs[j].pos < cs[k].pos
  }

  lemma {:induction false} CandidatesFromBounds(data: seq<byte>, start: nat)
    ensures forall k :: 0 <= k < |CandidatesFrom(data, start)| ==> start <= CandidatesFrom(data, start)[k].pos
    ensures StrictlyAscending(CandidatesFrom(data, start))
    decreases |data| - start
  {
    if start < |data| {
      CandidatesFromBounds(data, start + 1);
    }
  }

  /**
   * The sorted candidate list holds exactly the two found lists together;
   * with `CandidatesFromBounds` (strictly ascending) this pins it down as
   * what sorting them by position gives.
   */
  lemma {:induction false} CandidatesAreSortedFinds(data: seq<byte>, start: nat)
    ensures multiset(CandidatesFrom(data, start)) ==
      multiset(Tagged(Occurrences(data, CurMagic, start), false) + Tagged(Occurrences(data, IcoMagic, start), true))
    decreases |data| - start
  {
    if start < |data| {
      CandidatesAreSortedFinds(data, start + 1);
      FoundStep(data, start);
    }
  }

  /** The candidate found at `start`, if any. */
  function HeadCandidate(data: seq<byte>, start: nat): seq<Candidate>
  {
    if MagicAt(data, CurMagic, start) then [Candidate(start, false)]
    else if MagicAt(data, IcoMagic, start) then [Candidate(start, true)]
    else []
  }

  /** One position of the scan adds the same candidate to both sides. */
  lemma FoundStep(data: seq<byte>, start: nat)
    requires start < |data|
    ensures CandidatesFrom(data, start) == HeadCandidate(data, start) + CandidatesFrom(data, start + 1)
    ensures multiset(Tagged(Occurrences(data, CurMagic, start), false) + Tagged(Occurrences(data, IcoMagic, start), true))
      == multiset(HeadCandidate(data, start))
         + multiset(Tagged(Occurrences(data, CurMagic, start + 1), false) + Tagged(Occurrences(data, IcoMagic, start + 1), true))
  {
    var hc := if MagicAt(data, CurMagic, start) then [start] else [];
    var hi := if MagicAt(data, IcoMagic, start) then [start] else [];
    var curs := Occurrences(data, CurMagic, start + 1);
    var icos := Occurrences(data, IcoMagic, start + 1);
    assert Occurrences(data, CurMagic, start) == hc + curs;
    assert Occurrences(data, IcoMagic, start) == hi + icos;
    TaggedConcat(hc, curs, false);
    TaggedConcat(hi, icos, true);
    MagicsExclusive(data, start);
    assert HeadCandidate(data, start) == Tagged(hc, false) + Tagged(hi, true);
    MultisetInterleave(Tagged(hc, false), Tagged(curs, false), Tagged(hi, true), Tagged(icos, true));
  }

  lemma MultisetInterleave(a: seq<Candidate>, b: seq<Candidate>, c: seq<Candidate>, d: seq<Candidate>)
    ensures multiset((a + b) + (c + d)) == multiset(a + c) + multiset(b + d)
  {
  }

  /** No position carries both signatures: they differ in their third byte. */
  lemma MagicsExclusive(data: seq<byte>, i: nat)
    ensures !(MagicAt(data, CurMagic, i) && MagicAt(data, IcoMagic, i))
  {
    if MagicAt(data, CurMagic, i) {
      assert data[i..i + 4][2] == 2;
    }
  }

  lemma TaggedConcat(a: seq<nat>, b: seq<nat>, isIco: bool)
    ensures Tagged(a + b, isIco) == Tagged(a, isIco) + Tagged(b, isIco)
  {
  }

  // ---------------------------------------------------------------------------
  // Trying one candidate

  /** `num_images`: the little-endian count after the signature. */
  function ImageCount(data: seq<byte>, pos: nat): nat
    requires pos + HeaderSize <= |data|
  {
    U16LE(data, pos + 4)
  }

  /** The checks before extraction: a whole header, 1..100 images, a whole directory. */
  predicate Plausible(data: seq<byte>, pos: nat)
  {
    && pos + HeaderSize <= |data|
    && 1 <= ImageCount(data, pos) <= MaxImages
    && pos + HeaderSize + ImageCount(data, pos) * DirEntrySize <= |data|
  }

  /** The size field of directory entry `i`. */
  function ImageSize(data: seq<byte>, pos: nat, i: nat): nat
    requires pos + HeaderSize + (i + 1) * DirEntrySize <= |data|
  {
    U32LE(data, pos + HeaderSize + i * DirEntrySize + 8)
  }

  predicate Trusted(size: nat)
  {
    0 < size < MaxTrustedImageSize
  }

  /** `max_img_size` over the first `n` entries: the largest size in (0, 10 MiB), or 0. */
  function MaxImageSize(data: seq<byte>, pos: nat, n: nat): (r: nat)
    requires pos + HeaderSize + n * DirEntrySize <= |data|
    ensures r < MaxTrustedImageSize
    ensures forall i :: 0 <= i < n && Trusted(ImageSize(data, pos, i)) ==> ImageSize(data, pos, i) <= r
    ensures r == 0 || exists i :: 0 <= i < n && Trusted(ImageSize(data, pos, i)) && ImageSize(data, pos, i) == r
  {
    if n == 0 then 0
    else
      var m := MaxImageSize(data, pos, n - 1);
      var size := ImageSize(data, pos, n - 1);
      if Trusted(size) && size > m then size else m
  }

  /** How many bytes are taken: header, directory and the largest image (at least 2 KiB), clipped to the data. */
  function ExtractLength(data: seq<byte>, pos: nat): (len: nat)
    requires Plausible(data, pos)
    ensures HeaderSize + ImageCount(data, pos) * DirEntrySize <= len <= |data| - pos
  {
    var n := ImageCount(data, pos);
    var m := MaxImageSize(data, pos, n);
    var estimated := HeaderSize + n * DirEntrySize + (if m > MinImageAllowance then m else MinImageAllowance);
    if estimated < |data| - pos then estimated else |data| - pos
  }

  /** The bytes taken, with an icon's type word patched to "cursor". */
  function Extracted(data: seq<byte>, c: Candidate): (r: seq<byte>)
    requires Plausible(data, c.pos)
    ensures |r| == ExtractLength(data, c.pos)
  {
    var chunk := data[c.pos..c.pos + ExtractLength(data, c.pos)];
    if c.isIco then chunk[..2] + [2, 0] + chunk[4..] else chunk
  }

  /** The result of the first plausible candidate, in list order. */
  function FirstExtracted(data: seq<byte>, cs: seq<Candidate>): (r: Option<seq<byte>>)
    ensures r.None? <==> forall k :: 0 <= k < |cs| ==> !Plausible(data, cs[k].pos)
  {
    if cs == [] then None
    else if Plausible(data, cs[0].pos) then Some(Extracted(data, cs[0]))
    else FirstExtracted(data, cs[1..])
  }

  /** What `extract_cur_from_ani` returns for the file's bytes. */
  function ExtractResult(data: seq<byte>): Option<seq<byte>>
  {
    FirstExtracted(data, CandidatesFrom(data, 0))
  }

  /**
   * `r` is a cursor image taken from position `pos`: it starts with the
   * cursor signature, holds at least the whole directory, is at most what is
   * left of the data, and past the type word it is the data itself.
   */
  predicate CursorTakenAt(data: seq<byte>, r: seq<byte>, pos: nat)
  {
    && Plausible(data, pos)
    && HeaderSize + ImageCount(data, pos) * DirEntrySize <= |r| <= |data| - pos
    && r[..4] == CurMagic
    && r[4..] == data[pos + 4..pos + |r|]
  }

  /** The bytes taken at a plausible candidate form a cursor image taken there. */
  lemma ExtractedTakenAt(data: seq<byte>, c: Candidate)
    requires MagicAt(data, CurMagic, c.pos) || (c.isIco && MagicAt(data, IcoMagic, c.pos))
    requires Plausible(data, c.pos)
    ensures CursorTakenAt(data, Extracted(data, c), c.pos)
  {
    var len := ExtractLength(data, c.pos);
    ChunkStartsAsCursor(data, c.pos, len, c.isIco);
  }

  /** A chunk of at least four bytes at a signature, patched when it is an icon, starts with the cursor signature. */
  lemma ChunkStartsAsCursor(data: seq<byte>, pos: nat, len: nat, isIco: bool)
    requires MagicAt(data, CurMagic, pos) || (isIco && MagicAt(data, IcoMagic, pos))
    requires 4 <= len && pos + len <= |data|
    ensures var chunk := data[pos..pos + len];
      var r := if isIco then chunk[..2] + [2, 0] + chunk[4..] else chunk;
      r[..4] == CurMagic && r[4..] == data[pos + 4..pos + len]
  {
    var chunk := data[pos..pos + len];
    assert chunk[..4] == data[pos..pos + 4];
    assert chunk[4..] == data[pos + 4..pos + len];
    if isIco {
      var r := chunk[..2] + [2, 0] + chunk[4..];
      assert r[..4] == chunk[..2] + [2, 0];
      assert r[4..] == chunk[4..];
      if MagicAt(data, IcoMagic, pos) {
        assert chunk[..2] == IcoMagic[..2];
      } else {
        assert chunk[..2] == CurMagic[..2];
      }
    }
  }

  /** A result is a cursor image taken from one of the candidates. */
  lemma {:induction false} ExtractedIsCursor(data: seq<byte>, cs: seq<Candidate>)
    requires forall k :: 0 <= k < |cs| ==> MagicAt(data, CurMagic, cs[k].pos) || (cs[k].isIco && MagicAt(data, IcoMagic, cs[k].pos))
    requires FirstExtracted(data, cs).Some?
    ensures exists k :: 0 <= k < |cs| && CursorTakenAt(data, FirstExtracted(data, cs).value, cs[k].pos)
  {
    if Plausible(data, cs[0].pos) {
      ExtractedTakenAt(data, cs[0]);
    } else {
      ExtractedIsCursor(data, cs[1..]);
      var k :| 0 <= k < |cs[1..]| && CursorTakenAt(data, FirstExtracted(data, cs[1..]).value, cs[1..][k].pos);
      assert cs[k + 1] == cs[1..][k];
    }
  }

  lemma {:induction false} CandidatesHaveMagic(data: seq<byte>, start: nat)
    ensures forall k :: 0 <= k < |CandidatesFrom(data, start)| ==>
      MagicAt(data, CurMagic, CandidatesFrom(data, start)[k].pos)
      || (CandidatesFrom(data, start)[k].isIco && MagicAt(data, IcoMagic, CandidatesFrom(data, start)[k].pos))
    decreases |data| - start
  {
    if start < |data| {
      CandidatesHaveMagic(data, start + 1);
    }
  }

  /** A found image is at least one header and one directory entry long; nothing is found without a plausible candidate. */
  lemma ExtractResultShape(data: seq<byte>)
    ensures ExtractResult(data).None? <==> forall i :: 0 <= i < |data| && (MagicAt(data, CurMagic, i) || MagicAt(data, IcoMagic, i)) ==> !Plausible(data, i)
    ensures ExtractResult(data).Some? ==>
      |ExtractResult(data).value| >= HeaderSize + DirEntrySize && ExtractResult(data).value[2..4] == [2, 0]
  {
    var cs := CandidatesFrom(data, 0);
    CandidatesHaveMagic(data, 0);
    CandidatesAreSortedFinds(data, 0);
    CandidatesFromCover(data, 0);
    if ExtractResult(data).Some? {
      ExtractedIsCursor(data, cs);
    }
  }

  lemma {:induction false} CandidatesFromCover(data: seq<byte>, start: nat)
    ensures forall i :: start <= i < |data| && (MagicAt(data, CurMagic, i) || MagicAt(data, IcoMagic, i)) ==>
      exists k :: 0 <= k < |CandidatesFrom(data, start)| && CandidatesFrom(data, start)[k].pos == i
    ensures forall k :: 0 <= k < |CandidatesFrom(data, start)| ==> start <= CandidatesFrom(data, start)[k].pos < |data|
    decreases |data| - start
  {
    if start < |data| {
      CandidatesFromCover(data, start + 1);
      var head: seq<Candidate> := if MagicAt(data, CurMagic, start) then [Candidate(start, false)]
        else if MagicAt(data, IcoMagic, start) then [Candidate(start, true)]
        else [];
      var rest := CandidatesFrom(data, start + 1);
      assert CandidatesFrom(data, start) == head + rest;
      forall i | start <= i < |data| && (MagicAt(data, CurMagic, i) || MagicAt(data, IcoMagic, i))
        ensures exists k :: 0 <= k < |head + rest| && (head + rest)[k].pos == i
      {
        if i == start {
          assert (head + rest)[0].pos == i;
        } else {
          var k :| 0 <= k < |rest| && rest[k].pos == i;
          assert (head + rest)[|head| + k].pos == i;
        }
      }
    }
  }

  // ---------------------------------------------------------------------------
  // The procedure

  /**
   * The `for` loop computing `max_img_size`. Its early `break` for an entry
   * running past the data is left out: the directory was checked to fit.
   */
  method MaxImageSizeLoop(data: seq<byte>, pos: nat, numImages: nat) returns (maxImgSize: nat)
    requires pos + HeaderSize + numImages * DirEntrySize <= |data|
    ensures maxImgSize == MaxImageSize(data, pos, numImages)
  {
    maxImgSize := 0;
    for i := 0 to numImages
      invariant maxImgSize == MaxImageSize(data, pos, i)
    {
      var dirPos := pos + HeaderSize + i * DirEntrySize;
      MaxImageSizeStep(data, pos, numImages, i, dirPos);
      var imgSize := U32LE(data, dirPos + 8);
      if imgSize > 0 && imgSize < MaxTrustedImageSize {
        maxImgSize := if maxImgSize >= imgSize then maxImgSize else imgSize;
      }
    }
  }

  /** One more entry: its size replaces the maximum when it is trusted and larger. */
  lemma MaxImageSizeStep(data: seq<byte>, pos: nat, numImages: nat, i: nat, dirPos: nat)
    requires i < numImages && pos + HeaderSize + numImages * DirEntrySize <= |data|
    requires dirPos == pos + HeaderSize + i * DirEntrySize
    ensures pos + HeaderSize + (i + 1) * DirEntrySize <= |data| && dirPos + 12 <= |data|
    ensures ImageSize(data, pos, i) == U32LE(data, dirPos + 8)
    ensures MaxImageSize(data, pos, i + 1)
      == if Trusted(ImageSize(data, pos, i)) && ImageSize(data, pos, i) > MaxImageSize(data, pos, i)
         then ImageSize(data, pos, i) else MaxImageSize(data, pos, i)
  {
  }

  /** The width/height check of the first directory entry, where 0 stands for 256. */
  predicate DimensionsPlausible(widthByte: byte, heightByte: byte)
  {
    var width := if widthByte != 0 then widthByte as nat else 256;
    var height := if heightByte != 0 then heightByte as nat else 256;
    !(width > 256 || height > 256)
  }

  /** That check never rejects a candidate: a byte is at most 255, and 0 means 256. */
  lemma DimensionsAlwaysPlausible(widthByte: byte, heightByte: byte)
    ensures DimensionsPlausible(widthByte, heightByte)
  {
  }

  /** The body of the candidate loop: each failed check is a `continue`, here a `None`. */
  method TryCandidate(data: seq<byte>, c: Candidate) returns (r: Option<seq<byte>>)
    ensures r == (if Plausible(data, c.pos) then Some(Extracted(data, c)) else None)
  {
    var pos := c.pos;
    if |data| < pos + HeaderSize {
      return None;
    }
    var numImages := U16LE(data, pos + 4);
    if numImages == 0 || numImages > MaxImages {
      return None;
    }
    if |data| < pos + HeaderSize + numImages * DirEntrySize
       || !DimensionsPlausible(data[pos + 6], data[pos + 7]) {
      return None;
    }
    assert Plausible(data, pos);
    var result := ExtractAt(data, c);
    return Some(result);
  }

  /** The extraction of a candidate that passed the checks: the slice of the estimated size, patched for an icon. */
  method ExtractAt(data: seq<byte>, c: Candidate) returns (result: seq<byte>)
    requires Plausible(data, c.pos)
    ensures result == Extracted(data, c)
  {
    var pos := c.pos;
    var estimatedSize := EstimatedSize(data, pos);
    result := data[pos..pos + estimatedSize];
    if c.isIco {
      result := result[..2] + [2, 0] + result[4..];
    }
  }

  /** The size estimate: header and directory plus the largest trusted image, at least 2 KiB, capped by the data left. */
  method EstimatedSize(data: seq<byte>, pos: nat) returns (estimatedSize: nat)
    requires Plausible(data, pos)
    ensures estimatedSize == ExtractLength(data, pos)
  {
    var numImages := U16LE(data, pos + 4);
    var minSize := HeaderSize + numImages * DirEntrySize;
    var maxImgSize := MaxImageSizeLoop(data, pos, numImages);
    estimatedSize := minSize + (if maxImgSize > MinImageAllowance then maxImgSize else MinImageAllowance);
    estimatedSize := if estimatedSize < |data| - pos then estimatedSize else |data| - pos;
  }

  // ---------------------------------------------------------------------------
  // `positions.sort(key=lambda x: x[0])`

  predicate AscendingByPos(cs: seq<Candidate>)
  {
    forall j, k :: 0 <= j < k < |cs| ==> cs[j].pos <= cs[k].pos
  }

  /** The list sort keyed by position: an insertion sort, stable like Python's. */
  method SortByPos(cs: seq<Candidate>) returns (sorted: seq<Candidate>)
    ensures AscendingByPos(sorted) && multiset(sorted) == multiset(cs)
  {
    sorted := [];
    for i := 0 to |cs|
      invariant AscendingByPos(sorted) && multiset(sorted) == multiset(cs[..i])
    {
      sorted := InsertByPos(sorted, cs[i]);
      assert cs[..i + 1] == cs[..i] + [cs[i]];
    }
    assert cs[..|cs|] == cs;
  }

  /** Inserts `c` after every element whose position is not greater. */
  method InsertByPos(s: seq<Candidate>, c: Candidate) returns (t: seq<Candidate>)
    requires AscendingByPos(s)
    ensures AscendingByPos(t) && multiset(t) == multiset(s) + multiset{c}
  {
    var j := |s|;
    while j > 0 && s[j - 1].pos > c.pos
      invariant 0 <= j <= |s|
      invariant forall m :: j <= m < |s| ==> s[m].pos > c.pos
      decreases j
    {
      j := j - 1;
    }
    t := s[..j] + [c] + s[j..];
    InsertedAscending(s, c, j);
    assert s == s[..j] + s[j..];
  }

  /** Placing `c` between the positions not above it and those above keeps the order. */
  lemma InsertedAscending(s: seq<Candidate>, c: Candidate, j: nat)
    requires AscendingByPos(s) && j <= |s|
    requires j > 0 ==> s[j - 1].pos <= c.pos
    requires forall m :: j <= m < |s| ==> s[m].pos > c.pos
    ensures AscendingByPos(s[..j] + [c] + s[j..])
  {
    var t := s[..j] + [c] + s[j..];
    forall m, n | 0 <= m < n < |t|
      ensures t[m].pos <= t[n].pos
    {
      if n < j {
        assert t[m] == s[m] && t[n] == s[n];
      } else if n == j {
        assert t[m] == s[m] && t[n] == c;
        assert s[m].pos <= s[j - 1].pos;
      } else if m < j {
        assert t[m] == s[m] && t[n] == s[n - 1];
      } else if m == j {
        assert t[m] == c && t[n] == s[n - 1];
      } else {
        assert t[m] == s[m - 1] && t[n] == s[n - 1];
      }
    }
  }

  /**
   * A strictly ascending list is the only ordering of its elements by
   * position: any list with the same elements sorted by position equals it.
   */
  lemma {:induction false} SortedUnique(a: seq<Candidate>, b: seq<Candidate>)
    requires StrictlyAscending(a) && AscendingByPos(b) && multiset(a) == multiset(b)
    ensures a == b
    decreases |a|
  {
    assert |a| == |multiset(a)| == |multiset(b)| == |b|;
    if |a| > 0 {
      assert a[0] == b[0] by {
        assert a[0] in multiset(b) && b[0] in multiset(a);
        var j :| 0 <= j < |b| && b[j] == a[0];
        var i :| 0 <= i < |a| && a[i] == b[0];
        assert b[0].pos <= b[j].pos;
        assert a[0].pos <= a[i].pos == b[0].pos <= a[0].pos;
        assert i == 0;
      }
      TailsSameElements(a, b);
      assert StrictlyAscending(a[1..]);
      assert AscendingByPos(b[1..]);
      SortedUnique(a[1..], b[1..]);
    }
  }

  lemma TailsSameElements(a: seq<Candidate>, b: seq<Candidate>)
    requires |a| > 0 && |b| > 0 && a[0] == b[0] && multiset(a) == multiset(b)
    ensures multiset(a[1..]) == multiset(b[1..])
  {
    assert a == [a[0]] + a[1..] && b == [b[0]] + b[1..];
    assert multiset(a) == multiset{a[0]} + multiset(a[1..]);
    assert multiset(b) == multiset{a[0]} + multiset(b[1..]);
    assert multiset(a[1..]) == multiset(a) - multiset{a[0]};
    assert multiset(b[1..]) == multiset(b) - multiset{a[0]};
  }

  /** Sorting both lists of finds by position yields exactly `CandidatesFrom(data, 0)`. */
  lemma SortedFindsAreCandidates(data: seq<byte>, positions: seq<Candidate>)
    requires AscendingByPos(positions)
    requires multiset(positions) == multiset(Tagged(Occurrences(data, CurMagic, 0), false)
                                             + Tagged(Occurrences(data, IcoMagic, 0), true))
    ensures positions == CandidatesFrom(data, 0)
  {
    CandidatesAreSortedFinds(data, 0);
    CandidatesFromBounds(data, 0);
    SortedUnique(CandidatesFrom(data, 0), positions);
  }

  /** `extract_cur_from_ani` on the file's bytes. */
  method ExtractCurFromAni(data: seq<byte>) returns (r: Option<seq<byte>>)
    ensures r == ExtractResult(data)
  {
    var curs := FindAll(data, CurMagic);
    var icos := FindAll(data, IcoMagic);
    var positions := SortByPos(Tagged(curs, false) + Tagged(icos, true));
    SortedFindsAreCandidates(data, positions);
    for k := 0 to |positions|
      invariant FirstExtracted(data, positions) == FirstExtracted(data, positions[k..])
    {
      assert positions[k..][1..] == positions[k + 1..];
      var found := TryCandidate(data, positions[k]);
      if found.Some? {
        return found;
      }
    }
    return None;
  }

  /** `convert_ani_to_cur`: writes only a result of at least six bytes. */
  function ConvertWrites(extracted: Option<seq<byte>>): (written: bool)
    ensures written <==> extracted.Some? && |extracted.value| >= HeaderSize
  {
    match extracted
    case None => false
    case Some(bytes) => |bytes| >= HeaderSize
  }

  /** The length guard never rejects what the extractor finds: a found image is always written. */
  lemma ConvertWritesEveryFind(data: seq<byte>)
    ensures ConvertWrites(ExtractResult(data)) <==> ExtractResult(data).Some?
  {
    ExtractResultShape(data);
  }
}
