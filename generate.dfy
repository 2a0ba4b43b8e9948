/**
 * `src-tauri/src/commands/generate.rs`: the text file written for the
 * selected paths. The filesystem is abstracted as what each read attempt on
 * a path yields (`Disk`), and the output file as the string written to it.
 */
module Generate {
  import opened Wrappers
  import opened Strings
  import opened Bytes

  /** `MAX_FILE_SIZE`: 50 MiB. */
  const MiB: nat := 1024 * 1024
  const MaxFileSize: nat := 50 * MiB

  const DefaultOutputName := "output.txt"
  const RuleWidth: nat := 40

  /** What `fs::read_to_string` yields. */
  datatype TextRead =
    | Utf8(content: string)
    | InvalidData(error: string)   // the bytes are not UTF-8
    | ReadFailed(error: string)    // any other I/O error

  /** What the three filesystem calls on one path yield: metadata, text read, byte read. */
  datatype FileOnDisk = FileOnDisk(metadata: Result<nat, string>, asText: TextRead, asBytes: Result<seq<byte>, string>)

  type Disk = string -> FileOnDisk

  // ---------------------------------------------------------------------------
  // Latin-1

  /** Each byte becomes the character with the same code (`b as char`). */
  function Latin1Decode(bytes: seq<byte>): (s: string)
    ensures |s| == |bytes|
    ensures forall i :: 0 <= i < |bytes| ==> s[i] as int == bytes[i] as int
  {
    seq(|bytes|, i requires 0 <= i < |bytes| => (bytes[i] as int) as char)
  }

  predicate IsLatin1(s: string)
  {
    forall i :: 0 <= i < |s| ==> (s[i] as int) < 256
  }

  /** The inverse on Latin-1 text. */
  function Latin1Encode(s: string): (bytes: seq<byte>)
    requires IsLatin1(s)
    ensures |bytes| == |s|
  {
    seq(|s|, i requires 0 <= i < |s| => (s[i] as int) as byte)
  }

  /** Decoding loses nothing: every byte string comes back, and all decoded text is Latin-1. */
  lemma Latin1RoundTrip(bytes: seq<byte>)
    ensures IsLatin1(Latin1Decode(bytes))
    ensures Latin1Encode(Latin1Decode(bytes)) == bytes
  {
  }

  /** ... and in the other direction, on Latin-1 text. */
  lemma Latin1RoundTripText(s: string)
    requires IsLatin1(s)
    ensures Latin1Decode(Latin1Encode(s)) == s
  {
  }

  // ---------------------------------------------------------------------------
  // Reading one file

  function TooLarge(size: nat): string
  {
    "File too large: " + NatToString(size / MiB) + "MB (max: " + NatToString(MaxFileSize / MiB) + "MB)"
  }

  /**
   * `read_file_with_fallback`: the size is checked first; text that is not
   * UTF-8 is read again as bytes and decoded as Latin-1; every other failure
   * is an error.
   */
  function ReadFileWithFallback(f: FileOnDisk): (r: Result<string, string>)
    ensures f.metadata.Ok? && f.metadata.value > MaxFileSize ==> r == Err(TooLarge(f.metadata.value))
    ensures r.Ok? ==> f.metadata.Ok? && f.metadata.value <= MaxFileSize
    ensures r.Ok? && f.asText.Utf8? ==> r.value == f.asText.content
    ensures r.Ok? && !f.asText.Utf8? ==>
      f.asText.InvalidData? && f.asBytes.Ok? && |f.asBytes.value| <= MaxFileSize
      && r.value == Latin1Decode(f.asBytes.value)
    ensures f.metadata.Ok? && f.metadata.value <= MaxFileSize && f.asText.ReadFailed? ==> r.Err?
    ensures f.metadata.Ok? && f.metadata.value <= MaxFileSize && f.asText.Utf8? ==> r == Ok(f.asText.content)
    ensures (f.metadata.Ok? && f.metadata.value <= MaxFileSize && f.asText.InvalidData? && f.asBytes.Ok?
             && |f.asBytes.value| <= MaxFileSize) ==> r == Ok(Latin1Decode(f.asBytes.value))
  {
    match f.metadata
    case Err(e) => Err("Failed to read file metadata: " + e)
    case Ok(size) =>
      if size > MaxFileSize then Err(TooLarge(size))
      else
        match f.asText
        case Utf8(content) => Ok(content)
        case ReadFailed(e) => Err("Failed to read file: " + e)
        case InvalidData(_) =>
          match f.asBytes
          case Err(e) => Err("Failed to read file as binary: " + e)
          case Ok(bytes) =>
            if |bytes| > MaxFileSize then Err(TooLarge(|bytes|))
            else Ok(Latin1Decode(bytes))
  }

  /** Every successful read is at most 50 MiB of text, whichever way it was decoded. */
  lemma ReadContentBounded(f: FileOnDisk)
    requires ReadFileWithFallback(f).Ok?
    requires f.asText.Utf8? ==> |f.asText.content| <= f.metadata.value
    ensures |ReadFileWithFallback(f).value| <= MaxFileSize
  {
  }

  // ---------------------------------------------------------------------------
  // Paths (Windows separators)

  function TrimTrailingSeparators(p: string): (r: string)
    ensures |r| <= |p| && r == p[..|r|]
    ensures r == [] || !IsSeparator(r[|r| - 1])
    ensures forall i :: |r| <= i < |p| ==> IsSeparator(p[i])
  {
    if p != [] && IsSeparator(p[|p| - 1]) then TrimTrailingSeparators(p[..|p| - 1]) else p
  }

  /** `Path::file_name`: the last component, ignoring trailing separators; none for "" or "..". */
  function FileName(p: string): (r: Option<string>)
    ensures r.Some? ==> r.value != "" && r.value != ".."
    ensures r.Some? ==> forall i :: 0 <= i < |r.value| ==> !IsSeparator(r.value[i])
  {
    var t := TrimTrailingSeparators(p);
    var last := t[LastSeparator(t) + 1..];
    if last == "" || last == ".." then None else Some(last)
  }

  /**
   * `n` ends `t` and is a whole component of it: it holds no separator and
   * is the whole of `t` or preceded by a separator.
   */
  predicate IsLastComponent(t: string, n: string)
  {
    && |n| <= |t| && t[|t| - |n|..] == n
    && (forall i :: 0 <= i < |n| ==> !IsSeparator(n[i]))
    && (|n| == |t| || IsSeparator(t[|t| - |n| - 1]))
  }

  /** A Windows drive prefix such as "C:". */
  predicate IsDrivePrefix(h: string)
  {
    |h| == 2 && h[1] == ':' && (('a' <= h[0] <= 'z') || ('A' <= h[0] <= 'Z'))
  }

  /**
   * `Path::parent`: everything before the last component, keeping the root
   * separator of "\\x" and of "C:\\x"; none when there is no component.
   */
  function Parent(p: string): Option<string>
  {
    var t := TrimTrailingSeparators(p);
    if t == "" then None
    else
      var k := LastSeparator(t);
      if k < 0 then Some("")
      else
        var head := t[..k];
        var h := TrimTrailingSeparators(head);
        if h == "" then Some(t[..k + 1])
        else if IsDrivePrefix(h) then Some(t[..|h| + 1])
        else Some(h)
  }

  /**
   * A file name is the last component of the path, after which only
   * separators follow; and there is no file name exactly when that last
   * component is empty or "..".
   */
  lemma FileNameIsSuffix(p: string)
    ensures FileName(p).Some? ==> IsLastComponent(TrimTrailingSeparators(p), FileName(p).value)
    ensures FileName(p).None? ==> forall n :: IsLastComponent(TrimTrailingSeparators(p), n) ==> n == "" || n == ".."
    ensures forall i :: |TrimTrailingSeparators(p)| <= i < |p| ==> IsSeparator(p[i])
  {
    var t := TrimTrailingSeparators(p);
    var k := LastSeparator(t);
    var last := t[k + 1..];
    assert IsLastComponent(t, last);
    forall n | IsLastComponent(t, n)
      ensures n == last
    {
      LastComponentUnique(t, n, last);
    }
  }

  /** A string has one last component. */
  lemma LastComponentUnique(t: string, n: string, m: string)
    requires IsLastComponent(t, n) && IsLastComponent(t, m)
    ensures n == m
  {
    assert forall i :: |t| - |n| <= i < |t| ==> t[i] == n[i - (|t| - |n|)];
    assert forall i :: |t| - |m| <= i < |t| ==> t[i] == m[i - (|t| - |m|)];
    assert |n| == |m|;
  }

  // ---------------------------------------------------------------------------
  // The output text

  function Rule(): (r: string)
    ensures |r| == RuleWidth && forall i :: 0 <= i < |r| ==> r[i] == '='
  {
    seq(RuleWidth, _ => '=')
  }

  /** The header: a rule, the source name, a rule, a blank line. */
  function HeaderText(sourceName: string): string
  {
    Rule() + "\n" + sourceName + "\n" + Rule() + "\n" + "\n"
  }

  function PathMarker(path: string): string
  {
    "=== PATH: " + path + " ===\n"
  }

  /** The NAME marker shows the file name, or the whole path when it has none. */
  function NameMarker(path: string): string
  {
    "=== NAME: " + (match FileName(path) case Some(n) => n case None => path) + " ===\n"
  }

  /** What follows the markers: the content and a blank line, or the error line and a blank line. */
  function Body(read: Result<string, string>): string
  {
    match read
    case Ok(content) => content + "\n" + "\n"
    case Err(e) => "[Error: unable to read file - " + e + "]\n" + "\n"
  }

  function Section(path: string, disk: Disk): string
  {
    PathMarker(path) + NameMarker(path) + Body(ReadFileWithFallback(disk(path)))
  }

  /** Everything written for `paths`, in order, after the header. */
  function OutputText(sourceName: string, paths: seq<string>, disk: Disk): string
  {
    if paths == [] then HeaderText(sourceName)
    else OutputText(sourceName, paths[..|paths| - 1], disk) + Section(paths[|paths| - 1], disk)
  }

  /** What is written for the first `i` paths is never rewritten by later ones. */
  lemma OutputExtends(sourceName: string, paths: seq<string>, disk: Disk, i: nat)
    requires i <= |paths|
    ensures StartsWith(OutputText(sourceName, paths, disk), OutputText(sourceName, paths[..i], disk))
  {
    OutputPrefixExtends(sourceName, paths, disk, i, |paths|);
    SliceAll(paths);
  }

  lemma OutputPrefixExtends(sourceName: string, paths: seq<string>, disk: Disk, i: nat, n: nat)
    requires i <= n <= |paths|
    ensures StartsWith(OutputText(sourceName, paths[..n], disk), OutputText(sourceName, paths[..i], disk))
  {
    var outputs := seq(n + 1, k requires 0 <= k <= n => OutputText(sourceName, paths[..k], disk));
    forall k | 0 < k < |outputs|
      ensures StartsWith(outputs[k], outputs[k - 1])
    {
      OutputStep(sourceName, paths, disk, k);
    }
    PrefixChain(outputs, i, n);
  }

  /** One more path only appends to what was written. */
  lemma OutputStep(sourceName: string, paths: seq<string>, disk: Disk, n: nat)
    requires 0 < n <= |paths|
    ensures StartsWith(OutputText(sourceName, paths[..n], disk), OutputText(sourceName, paths[..n - 1], disk))
  {
    OutputGrows(sourceName, paths, disk, n);
    StartsWithConcat(OutputText(sourceName, paths[..n - 1], disk), Section(paths[n - 1], disk));
  }

  /** The output for one more path is the output so far followed by that path's section. */
  lemma OutputGrows(sourceName: string, paths: seq<string>, disk: Disk, n: nat)
    requires 0 < n <= |paths|
    ensures OutputText(sourceName, paths[..n], disk) == OutputText(sourceName, paths[..n - 1], disk) + Section(paths[n - 1], disk)
  {
    SliceOfSlice(paths, n, n - 1);
  }

  /**
   * The output starts with the header, and each path's section follows those
   * of the paths before it, whether or not its file could be read.
   */
  lemma OutputLayout(sourceName: string, paths: seq<string>, disk: Disk, i: nat)
    requires i < |paths|
    ensures StartsWith(OutputText(sourceName, paths, disk), HeaderText(sourceName))
    ensures StartsWith(OutputText(sourceName, paths, disk), OutputText(sourceName, paths[..i], disk) + Section(paths[i], disk))
  {
    OutputExtends(sourceName, paths, disk, 0);
    assert paths[..0] == [];
    OutputExtends(sourceName, paths, disk, i + 1);
    OutputGrows(sourceName, paths, disk, i + 1);
  }

  /** A path that cannot be read still gets its markers and an error line; later paths still follow. */
  lemma FailedReadIsRecorded(path: string, disk: Disk)
    requires ReadFileWithFallback(disk(path)).Err?
    ensures Section(path, disk) ==
      PathMarker(path) + NameMarker(path) + "[Error: unable to read file - " + ReadFileWithFallback(disk(path)).error + "]\n\n"
  {
    var e := ReadFileWithFallback(disk(path)).error;
    var head := PathMarker(path) + NameMarker(path);
    assert Section(path, disk) == head + Body(Err(e));
    assert Body(Err(e)) == "[Error: unable to read file - " + e + "]\n\n";
    Assoc(head, "[Error: unable to read file - " + e, "]\n\n");
    Assoc(head, "[Error: unable to read file - ", e);
  }

  /** The success message: the output file's name (default "output.txt") and its folder. */
  function SuccessMessage(outputPath: string): string
  {
    "File generated successfully!\n\n\U{1F4C4} "
      + (match FileName(outputPath) case Some(n) => n case None => DefaultOutputName)
      + "\n\U{1F4C1} "
      + (match Parent(outputPath) case Some(d) => d case None => "")
  }

  /** The parent is a prefix and the file name a suffix of the path, and they do not overlap. */
  lemma ParentPrecedesName(p: string)
    requires FileName(p).Some?
    ensures Parent(p).Some?
    ensures StartsWith(p, Parent(p).value)
    ensures |Parent(p).value| + |FileName(p).value| <= |TrimTrailingSeparators(p)|
  {
    var t := TrimTrailingSeparators(p);
    var k := LastSeparator(t);
    assert t != "";
    var d := ParentOfTrimmed(t);
    assert Parent(p) == Some(d);
    assert p[..|d|] == t[..|d|];
  }

  lemma ParentOfTrimmed(t: string) returns (d: string)
    requires t != ""
    ensures var k := LastSeparator(t);
      |d| <= k + 1 && d == t[..|d|]
      && d == (if k < 0 then "" else if TrimTrailingSeparators(t[..k]) == "" then t[..k + 1]
               else if IsDrivePrefix(TrimTrailingSeparators(t[..k])) then t[..|TrimTrailingSeparators(t[..k])| + 1]
               else TrimTrailingSeparators(t[..k]))
  {
    var k := LastSeparator(t);
    if k < 0 {
      d := "";
    } else {
      var h := TrimTrailingSeparators(t[..k]);
      if h == "" {
        d := t[..k + 1];
      } else if IsDrivePrefix(h) {
        d := t[..|h| + 1];
      } else {
        d := h;
        assert h == t[..k][..|h|];
      }
    }
  }

  /** The last separator of `prefix + [sep] + name` is `sep` when `name` holds none. */
  lemma {:induction false} LastSeparatorBefore(prefix: string, sep: char, name: string)
    requires IsSeparator(sep)
    requires forall i :: 0 <= i < |name| ==> !IsSeparator(name[i])
    ensures LastSeparator(prefix + [sep] + name) == |prefix|
  {
    var s := prefix + [sep] + name;
    assert s[|prefix|] == sep;
    assert forall j :: |prefix| < j < |s| ==> s[j] == name[j - |prefix| - 1];
  }

  /** A full Windows path: the message names the file and the folder holding it. */
  lemma SuccessMessageExample()
    ensures SuccessMessage("D:\\out\\notes.txt")
      == "File generated successfully!\n\n\U{1F4C4} notes.txt\n\U{1F4C1} D:\\out"
  {
    var p := "D:\\out\\notes.txt";
    assert p == "D:\\out" + ['\\'] + "notes.txt";
    NameAndFolder("D:\\out", "notes.txt");
    SuccessMessageFrom(p, "notes.txt", "D:\\out");
    ExampleMessageText();
  }

  lemma ExampleMessageText()
    ensures "File generated successfully!\n\n\U{1F4C4} " + "notes.txt" + "\n\U{1F4C1} " + "D:\\out"
      == "File generated successfully!\n\n\U{1F4C4} notes.txt\n\U{1F4C1} D:\\out"
  {
  }

  /**
   * A file inside a folder (not a drive root): the file name is the last
   * component and the parent is the folder, without the separator between.
   */
  lemma NameAndFolder(dir: string, name: string)
    requires dir != [] && !IsSeparator(dir[|dir| - 1]) && !IsDrivePrefix(dir)
    requires name != [] && name != ".." && forall i :: 0 <= i < |name| ==> !IsSeparator(name[i])
    ensures FileName(dir + ['\\'] + name) == Some(name)
    ensures Parent(dir + ['\\'] + name) == Some(dir)
  {
    var p := dir + ['\\'] + name;
    assert p[|p| - 1] == name[|name| - 1];
    assert TrimTrailingSeparators(p) == p;
    LastSeparatorBefore(dir, '\\', name);
    assert p[|dir| + 1..] == name;
    assert p[..|dir|] == dir;
    assert TrimTrailingSeparators(dir) == dir;
  }

  /** A file at the root of a drive: its folder keeps the root separator, "C:\\" rather than "C:". */
  lemma DriveRootParent(drive: char, name: string)
    requires ('a' <= drive <= 'z') || ('A' <= drive <= 'Z')
    requires name != [] && forall i :: 0 <= i < |name| ==> !IsSeparator(name[i])
    ensures Parent([drive, ':'] + ['\\'] + name) == Some([drive, ':', '\\'])
  {
    var p := [drive, ':'] + ['\\'] + name;
    LastSeparatorBefore([drive, ':'], '\\', name);
    assert p[|p| - 1] == name[|name| - 1];
    assert TrimTrailingSeparators(p) == p;
    assert p[..2] == [drive, ':'];
    assert TrimTrailingSeparators([drive, ':']) == [drive, ':'];
    assert p[..3] == [drive, ':', '\\'];
  }

  /** Without any component (an empty path, or separators only) the message falls back to "output.txt" and an empty folder. */
  lemma SuccessMessageDefault(p: string)
    requires forall i :: 0 <= i < |p| ==> IsSeparator(p[i])
    ensures SuccessMessage(p) == "File generated successfully!\n\n\U{1F4C4} output.txt\n\U{1F4C1} "
  {
    NoComponent(p);
    SuccessMessageFrom(p, DefaultOutputName, "");
    DefaultMessageText();
  }

  lemma DefaultMessageText()
    ensures "File generated successfully!\n\n\U{1F4C4} " + DefaultOutputName + "\n\U{1F4C1} " + ""
      == "File generated successfully!\n\n\U{1F4C4} output.txt\n\U{1F4C1} "
  {
  }

  lemma SuccessMessageFrom(p: string, name: string, folder: string)
    requires (if FileName(p).Some? then FileName(p).value else DefaultOutputName) == name
    requires (if Parent(p).Some? then Parent(p).value else "") == folder
    ensures SuccessMessage(p) == "File generated successfully!\n\n\U{1F4C4} " + name + "\n\U{1F4C1} " + folder
  {
  }

  lemma NoComponent(p: string)
    requires forall i :: 0 <= i < |p| ==> IsSeparator(p[i])
    ensures FileName(p) == None && Parent(p) == None
  {
    SeparatorsTrimToEmpty(p);
    TrimmedEmptyHasNoComponent(p);
  }

  lemma TrimmedEmptyHasNoComponent(p: string)
    requires TrimTrailingSeparators(p) == ""
    ensures FileName(p) == None && Parent(p) == None
  {
    assert ""[LastSeparator("") + 1..] == "";
  }

  /** Drive letters are not interpreted: "C:\\" names "C:", and "C:foo" names itself. */
  lemma DriveLetterKept()
    ensures FileName("C:\\") == Some("C:")
    ensures FileName("C:foo") == Some("C:foo")
  {
    assert TrimTrailingSeparators("C:\\") == "C:" by {
      assert "C:\\"[..1] == "C";
      assert "C:\\"[..2] == "C:";
    }
    assert LastSeparator("C:") == -1;
    assert "C:"[0..] == "C:";
    assert LastSeparator("C:foo") == -1;
    assert "C:foo"[0..] == "C:foo";
  }

  lemma SeparatorsTrimToEmpty(p: string)
    requires forall i :: 0 <= i < |p| ==> IsSeparator(p[i])
    ensures TrimTrailingSeparators(p) == ""
  {
    var t := TrimTrailingSeparators(p);
    assert |t| > 0 ==> t[|t| - 1] == p[|t| - 1];
  }



  /** The body of the loop over the paths: the two markers, then the content or the error line. */
  method WriteSection(prefix: string, filePath: string, disk: Disk) returns (written: string)
    ensures written == prefix + Section(filePath, disk)
  {
    written := prefix + PathMarker(filePath);
    var fileName := match FileName(filePath) case Some(n) => n case None => filePath;
    written := written + ("=== NAME: " + fileName + " ===\n");
    Assoc(prefix, PathMarker(filePath), NameMarker(filePath));
    ghost var marked := written;
    var content := ReadFileWithFallback(disk(filePath));
    match content {
      case Err(e) =>
        written := written + ("[Error: unable to read file - " + e + "]\n");
        written := written + "\n";
        Assoc(marked, "[Error: unable to read file - " + e + "]\n", "\n");
      case Ok(text) =>
        written := written + text;
        written := written + "\n";
        written := written + "\n";
        Assoc(marked, text, "\n");
        Assoc(marked, text + "\n", "\n");
    }
    Assoc(prefix, PathMarker(filePath) + NameMarker(filePath), Body(content));
  }

  /**
   * `generate_output`: creates the file (or fails), writes the header, then
   * for each path its markers and its content or error, never stopping on a
   * file that cannot be read.
   */
  method GenerateOutput(selectedPaths: seq<string>, sourceName: string, outputPath: string,
                        createError: Option<string>, disk: Disk)
    returns (r: Result<string, string>, written: string)
    ensures createError.Some? ==> r == Err("Failed to create output file: " + createError.value) && written == ""
    ensures createError.None? ==> r == Ok(SuccessMessage(outputPath))
    ensures createError.None? ==> written == OutputText(sourceName, selectedPaths, disk)
  {
    written := "";
    if createError.Some? {
      return Err("Failed to create output file: " + createError.value), written;
    }
    written := Rule() + "\n";
    written := written + sourceName + "\n";
    written := written + Rule() + "\n";
    written := written + "\n";
    for i := 0 to |selectedPaths|
      invariant written == OutputText(sourceName, selectedPaths[..i], disk)
    {
      OutputGrows(sourceName, selectedPaths, disk, i + 1);
      written := WriteSection(written, selectedPaths[i], disk);
    }
    SliceAll(selectedPaths);
    r := Ok(SuccessMessage(outputPath));
  }
}
