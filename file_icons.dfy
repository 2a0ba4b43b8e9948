/**
 * `src/utils/fileIcons.ts`: the icon shown beside a file name, looked up by
 * its lower-cased extension in a fixed table, with a default.
 */
module FileIcons {
  import opened Wrappers
  import opened Strings

  /** The default icon. */
  const DefaultIcon := "\U{1F4C4}"

  /**
   * The `icons` table: the icon stored under an extension, if it is one of
   * the table's own keys. Every key has one to six characters, so longer and
   * empty extensions are answered without consulting the keys.
   */
  function TableIcon(ext: string): (r: Option<string>)
    ensures r.Some? ==> 1 <= |ext| <= 6
  {
    if |ext| == 0 || |ext| > 6 then None
    else match ext
    case "py" => Some("\U{1F40D}")
    case "pyw" => Some("\U{1F40D}")
    case "pyi" => Some("\U{1F40D}")
    case "js" => Some("\U{1F4DC}")
    case "jsx" => Some("\U{269B}\U{FE0F}")
    case "ts" => Some("\U{1F4D8}")
    case "tsx" => Some("\U{269B}\U{FE0F}")
    case "html" => Some("\U{1F310}")
    case "htm" => Some("\U{1F310}")
    case "css" => Some("\U{1F3A8}")
    case "scss" => Some("\U{1F3A8}")
    case "sass" => Some("\U{1F3A8}")
    case "txt" => Some("\U{1F4C4}")
    case "md" => Some("\U{1F4DD}")
    case "rst" => Some("\U{1F4DD}")
    case "log" => Some("\U{1F4CB}")
    case "json" => Some("\U{1F4CA}")
    case "xml" => Some("\U{1F4CB}")
    case "yaml" => Some("\U{1F4CB}")
    case "yml" => Some("\U{1F4CB}")
    case "toml" => Some("\U{2699}\U{FE0F}")
    case "jpg" => Some("\U{1F5BC}\U{FE0F}")
    case "jpeg" => Some("\U{1F5BC}\U{FE0F}")
    case "png" => Some("\U{1F5BC}\U{FE0F}")
    case "gif" => Some("\U{1F5BC}\U{FE0F}")
    case "svg" => Some("\U{1F3A8}")
    case "ico" => Some("\U{1F5BC}\U{FE0F}")
    case "mp3" => Some("\U{1F3B5}")
    case "wav" => Some("\U{1F3B5}")
    case "flac" => Some("\U{1F3B5}")
    case "aac" => Some("\U{1F3B5}")
    case "mp4" => Some("\U{1F3AC}")
    case "avi" => Some("\U{1F3AC}")
    case "mov" => Some("\U{1F3AC}")
    case "mkv" => Some("\U{1F3AC}")
    case "webm" => Some("\U{1F3AC}")
    case "zip" => Some("\U{1F4E6}")
    case "rar" => Some("\U{1F4E6}")
    case "tar" => Some("\U{1F4E6}")
    case "gz" => Some("\U{1F4E6}")
    case "7z" => Some("\U{1F4E6}")
    case "pdf" => Some("\U{1F4D5}")
    case "doc" => Some("\U{1F4D8}")
    case "docx" => Some("\U{1F4D8}")
    case "xls" => Some("\U{1F4CA}")
    case "xlsx" => Some("\U{1F4CA}")
    case "cpp" => Some("\U{2699}\U{FE0F}")
    case "c" => Some("\U{2699}\U{FE0F}")
    case "h" => Some("\U{2699}\U{FE0F}")
    case "hpp" => Some("\U{2699}\U{FE0F}")
    case "java" => Some("\U{2615}")
    case "class" => Some("\U{2615}")
    case "jar" => Some("\U{2615}")
    case "rs" => Some("\U{1F980}")
    case "go" => Some("\U{1F439}")
    case "swift" => Some("\U{1F989}")
    case "kt" => Some("\U{1F3AF}")
    case "rb" => Some("\U{1F48E}")
    case "php" => Some("\U{1F418}")
    case "pl" => Some("\U{1F42A}")
    case "lua" => Some("\U{1F319}")
    case "sh" => Some("\U{1F5A5}\U{FE0F}")
    case "bash" => Some("\U{1F5A5}\U{FE0F}")
    case "zsh" => Some("\U{1F5A5}\U{FE0F}")
    case "fish" => Some("\U{1F420}")
    case "exe" => Some("\U{26A1}")
    case "dll" => Some("\U{1F527}")
    case "so" => Some("\U{1F527}")
    case "dylib" => Some("\U{1F527}")
    case "env" => Some("\U{1F510}")
    case "ini" => Some("\U{2699}\U{FE0F}")
    case "cfg" => Some("\U{2699}\U{FE0F}")
    case "conf" => Some("\U{2699}\U{FE0F}")
    case "sql" => Some("\U{1F5C4}\U{FE0F}")
    case "db" => Some("\U{1F5C4}\U{FE0F}")
    case "sqlite" => Some("\U{1F5C4}\U{FE0F}")
    case _ => None
  }

  /** The distinct icons of the table. */
  const TableIcons: set<string> := {"\U{1F40D}", "\U{1F4DC}", "\U{269B}\U{FE0F}", "\U{1F4D8}", "\U{1F310}", "\U{1F3A8}", "\U{1F4C4}", "\U{1F4DD}", "\U{1F4CB}", "\U{1F4CA}", "\U{2699}\U{FE0F}", "\U{1F5BC}\U{FE0F}", "\U{1F3B5}", "\U{1F3AC}", "\U{1F4E6}", "\U{1F4D5}", "\U{2615}", "\U{1F980}", "\U{1F439}", "\U{1F989}", "\U{1F3AF}", "\U{1F48E}", "\U{1F418}", "\U{1F42A}", "\U{1F319}", "\U{1F5A5}\U{FE0F}", "\U{1F420}", "\U{26A1}", "\U{1F527}", "\U{1F510}", "\U{1F5C4}\U{FE0F}"}

  /** Every key of the table maps to one of its icons. */
  lemma TableIconsCoverTable(ext: string)
    ensures TableIcon(ext).Some? ==> TableIcon(ext).value in TableIcons
  {
  }

  /**
   * Keys every plain JavaScript object inherits from `Object.prototype` and
   * that a lower-cased extension can spell: the other inherited names
   * (`toString`, `valueOf`, `hasOwnProperty`, ...) contain capitals.
   */
  const InheritedKeys: set<string> := {"constructor", "__proto__"}

  /** `filename.split('.').pop()`: the text after the last '.', or the whole name. */
  function LastSegment(filename: string): (r: string)
    ensures |r| <= |filename| && r == filename[|filename| - |r|..]
    ensures forall i :: 0 <= i < |r| ==> r[i] != '.'
    ensures |r| < |filename| ==> filename[|filename| - |r| - 1] == '.'
  {
    var k := LastIndexOf(filename, '.');
    filename[k + 1..]
  }

  /** The extension the table is indexed with: the last segment, lower-cased. */
  function Extension(filename: string): (r: string)
    ensures |r| == |LastSegment(filename)|
  {
    Lower(LastSegment(filename))
  }

  /** What `icons[ext] || '\U{1F4C4}'` evaluates to on a plain object. */
  datatype Lookup =
    | Own(icon: string)      // a table icon, or the default when the key is absent
    | Inherited(key: string) // an `Object.prototype` member: a function or an object, not a string

  /** `getFileIcon` as written: the lookup also sees inherited members, which are truthy. */
  function GetFileIconAsWritten(filename: string): (r: Lookup)
    ensures r.Inherited? <==> TableIcon(Extension(filename)).None? && Extension(filename) in InheritedKeys
    ensures r.Own? && TableIcon(Extension(filename)).Some? ==> r.icon == TableIcon(Extension(filename)).value
    ensures r.Own? && TableIcon(Extension(filename)).None? ==> r.icon == DefaultIcon
  {
    var ext := Extension(filename);
    match TableIcon(ext)
    case Some(icon) => Own(icon)
    case None => if ext in InheritedKeys then Inherited(ext) else Own(DefaultIcon)
  }

  /** The last segment is what follows the final '.'. */
  lemma {:induction false} LastSegmentAfterDot(prefix: string, seg: string)
    requires '.' !in seg
    ensures LastSegment(prefix + "." + seg) == seg
  {
    var s := prefix + "." + seg;
    var k := LastIndexOf(s, '.');
    assert s[|prefix|] == '.';
    assert forall j :: |prefix| < j < |s| ==> s[j] == seg[j - |prefix| - 1];
    assert k == |prefix|;
    assert s[|prefix| + 1..] == seg;
  }

  /** A name without '.' is its own last segment. */
  lemma {:induction false} LastSegmentWithoutDot(name: string)
    requires '.' !in name
    ensures LastSegment(name) == name
  {
    assert forall i :: 0 <= i < |name| ==> name[i] != '.';
    assert LastIndexOf(name, '.') == -1;
  }

  lemma InheritedWhenAbsent(filename: string, ext: string)
    requires Extension(filename) == ext && ext in InheritedKeys
    ensures GetFileIconAsWritten(filename) == Inherited(ext)
  {
    assert TableIcon(ext).None?;
  }

  /**
   * Any name ending in ".constructor" or ".__proto__" makes the as-written
   * lookup return `Object` or `Object.prototype`, not an icon.
   */
  lemma InheritedNamesReturnNonString(prefix: string, key: string)
    requires key in InheritedKeys
    ensures GetFileIconAsWritten(prefix + "." + key) == Inherited(key)
  {
    if key == "constructor" {
      LowerSegmentExtension(prefix, "constructor", prefix + "." + key);
    } else {
      LowerSegmentExtension(prefix, "__proto__", prefix + "." + key);
    }
    InheritedWhenAbsent(prefix + "." + key, key);
  }

  /** The extension of `prefix.seg`, when `seg` has no dot and no upper-case letter, is `seg` itself. */
  lemma LowerSegmentExtension(prefix: string, seg: string, name: string)
    requires name == prefix + "." + seg
    requires '.' !in seg && forall i :: 0 <= i < |seg| ==> !('A' <= seg[i] <= 'Z')
    ensures Extension(name) == seg
  {
    ExtensionAfterDot(prefix, seg);
    LowerKeepsLowerCase(seg);
  }

  /** The extension of `prefix.seg` is `seg` lower-cased. */
  lemma ExtensionAfterDot(prefix: string, seg: string)
    requires '.' !in seg
    ensures Extension(prefix + "." + seg) == Lower(seg)
  {
    LastSegmentAfterDot(prefix, seg);
  }

  lemma LowerKeepsLowerCase(s: string)
    requires forall i :: 0 <= i < |s| ==> !('A' <= s[i] <= 'Z')
    ensures Lower(s) == s
  {
  }

  /** `getFileIcon` with an own-property lookup: the table's icon, or the default. */
  function GetFileIcon(filename: string): (r: string)
    ensures TableIcon(Extension(filename)).Some? ==> r == TableIcon(Extension(filename)).value
    ensures TableIcon(Extension(filename)).None? ==> r == DefaultIcon
  {
    match TableIcon(Extension(filename))
    case Some(icon) => icon
    case None => DefaultIcon
  }

  /** With the own-property lookup, "x.constructor" gets the default icon. */
  lemma CorrectedConstructorGetsDefault()
    ensures GetFileIcon("x.constructor") == DefaultIcon
  {
    LowerSegmentExtension("x", "constructor", "x.constructor");
    IconOf("x.constructor", "constructor");
    assert TableIcon("constructor").None?;
  }

  /** Whatever the name, the icon is one of the table's icons or the default. */
  lemma IconIsTableIconOrDefault(filename: string)
    ensures GetFileIcon(filename) in TableIcons || GetFileIcon(filename) == DefaultIcon
  {
    TableIconsCoverTable(Extension(filename));
  }

  /** Outside the two inherited names, the corrected lookup is what the code computes. */
  lemma CorrectedAgreesElsewhere(filename: string)
    requires Extension(filename) !in InheritedKeys
    ensures GetFileIconAsWritten(filename) == Own(GetFileIcon(filename))
  {
  }

  lemma LowerIdempotent(s: string)
    ensures Lower(Lower(s)) == Lower(s)
  {
  }

  lemma {:induction false} LastIndexOfLower(s: string)
    ensures LastIndexOf(Lower(s), '.') == LastIndexOf(s, '.')
    decreases |s|
  {
    if s != [] {
      assert Lower(s)[..|s| - 1] == Lower(s[..|s| - 1]);
      LastIndexOfLower(s[..|s| - 1]);
    }
  }

  lemma LastSegmentOfLower(filename: string)
    ensures LastSegment(Lower(filename)) == Lower(LastSegment(filename))
  {
    LastIndexOfLower(filename);
  }

  /** The lookup ignores case: a name and its lower-cased form get the same icon. */
  lemma IconIgnoresCase(filename: string)
    ensures GetFileIcon(Lower(filename)) == GetFileIcon(filename)
  {
    LastSegmentOfLower(filename);
    LowerIdempotent(LastSegment(filename));
  }

  /** An upper-case Rust file name gets the Rust icon. */
  lemma UpperCaseNameExample()
    ensures GetFileIcon("MAIN.RS") == "\U{1F980}"
  {
    RustExtension();
    RustIcon();
    IconOf("MAIN.RS", "rs");
  }

  /** A name ending in '.' has an empty extension and gets the default icon. */
  lemma TrailingDotExample()
    ensures GetFileIcon("archive.") == DefaultIcon
  {
    LastSegmentAfterDot("archive", "");
    assert "archive" + "." + "" == "archive.";
    assert Extension("archive.") == "";
    assert TableIcon("").None?;
  }

  /** A name without '.' is looked up whole: "Makefile" is not a key. */
  lemma NoDotExample()
    ensures GetFileIcon("Makefile") == DefaultIcon
  {
    LastSegmentWithoutDot("Makefile");
    assert |Extension("Makefile")| == 8;
    IconOf("Makefile", Extension("Makefile"));
  }

  lemma RustExtension()
    ensures Extension("MAIN.RS") == "rs"
  {
    assert "MAIN" + "." + "RS" == "MAIN.RS";
    ExtensionAfterDot("MAIN", "RS");
    var ext := Lower("RS");
    assert |ext| == 2 && ext[0] == 'r' && ext[1] == 's';
  }

  lemma RustIcon()
    ensures TableIcon("rs") == Some("\U{1F980}")
  {
  }

  lemma IconOf(filename: string, ext: string)
    requires Extension(filename) == ext
    ensures GetFileIcon(filename) == (if TableIcon(ext).Some? then TableIcon(ext).value else DefaultIcon)
  {
  }
}
