/**
 * The block's two validators, `validate_file_name` and
 * `validate_file_content`. Each returns Pass or the first check that failed,
 * in the order the source runs its checks; `Message()` gives the text the
 * source returns beside `False`.
 */
module Validation {
  import opened Wrappers
  import opened Text

  /** The `(valid, msg)` pair: `(True, "")` is Pass. */
  datatype Check<+E> = Pass | Fail(error: E)

  datatype NameError =
    | EmptyName
    | NoExtension
    | StartsWithDot
    | ExtensionNotAllowed(ext: string)
    | InvalidCharacters
  {
    function Message(): string {
      match this
      case EmptyName => "Filename cannot be empty"
      case NoExtension => "Filename must have an extension"
      case StartsWithDot => "Filename cannot start with a dot"
      case ExtensionNotAllowed(ext) => "File extension '." + ext + "' is not allowed"
      case InvalidCharacters => "Filename contains invalid characters"
    }
  }

  datatype ContentError =
    | TooLarge(limit: int)
    | DangerousPattern(pattern: string)
  {
    function Message(): string {
      match this
      case TooLarge(limit) => "File content exceeds maximum size (" + IntToString(limit) + " bytes)"
      case DangerousPattern(p) => "Content contains potentially dangerous pattern: " + p
    }
  }

  /** The default of the `allowed_file_extensions` setting. */
  const DefaultExtensions: seq<string> := [".py", ".java", ".cpp", ".c", ".js", ".h", ".hpp", ".txt", ".md"]

  /** The characters no filename may contain. */
  const InvalidChars: seq<char> := ['<', '>', ':', '"', '|', '?', '*', '\\', '/']

  /** The substrings that the content check looks for, in the order it looks. */
  const DangerousPatterns: seq<string> := [
    "import os", "import sys", "import subprocess",
    "eval(", "exec(", "__import__(",
    "open(", "file(", "raw_input(",
    "input(", "compile("
  ]

  /** `x` is `e` without its leading dots: a suffix of `e`, cut after dots only, not starting with a dot. */
  predicate DotsStripped(e: string, x: string) {
    && |x| <= |e| && e[|e| - |x|..] == x
    && (forall j :: 0 <= j < |e| - |x| ==> e[j] == '.')
    && (x != [] ==> x[0] != '.')
  }

  /** `[ext.lstrip('.') for ext in allowed]`: each configured extension with its leading dots removed, in order. */
  function AllowedSuffixes(allowed: seq<string>): (r: seq<string>)
    ensures |r| == |allowed|
    ensures forall k :: 0 <= k < |allowed| ==> DotsStripped(allowed[k], r[k])
  {
    seq(|allowed|, k requires 0 <= k < |allowed| => LStrip(allowed[k], '.'))
  }

  /** `any(char in filename for char in InvalidChars)`: some character of the name is an invalid one. */
  predicate HasInvalidChar(filename: string): (r: bool)
    ensures r <==> exists k :: 0 <= k < |filename| && filename[k] in InvalidChars
  {
    var r := exists k :: 0 <= k < |InvalidChars| && InvalidChars[k] in filename;
    assert r ==> exists k :: 0 <= k < |filename| && filename[k] in InvalidChars by {
      if r {
        var j :| 0 <= j < |InvalidChars| && InvalidChars[j] in filename;
        var k :| 0 <= k < |filename| && filename[k] == InvalidChars[j];
      }
    }
    assert (exists k :: 0 <= k < |filename| && filename[k] in InvalidChars) ==> r by {
      if exists k :: 0 <= k < |filename| && filename[k] in InvalidChars {
        var k :| 0 <= k < |filename| && filename[k] in InvalidChars;
        var j :| 0 <= j < |InvalidChars| && InvalidChars[j] == filename[k];
        assert filename[k] in filename;
      }
    }
    r
  }

  /**
   * `validate_file_name`: non-empty, has a `.`, something before the last
   * `.`, the part after it is an allowed extension (compared case-sensitively),
   * and none of the invalid characters, checked in that order.
   */
  function ValidateFileName(filename: string, allowed: seq<string>): (r: Check<NameError>)
    ensures r == Fail(EmptyName) <==> filename == ""
    ensures r == Fail(NoExtension) <==> filename != "" && '.' !in filename
    ensures r == Fail(StartsWithDot) <==> LastDotAt(filename, 0)
    ensures forall i :: LastDotAt(filename, i) && 0 < i ==>
              (r == Fail(ExtensionNotAllowed(filename[i + 1..])) <==> filename[i + 1..] !in AllowedSuffixes(allowed))
    ensures forall i :: LastDotAt(filename, i) && 0 < i && filename[i + 1..] in AllowedSuffixes(allowed) ==>
              (r == Fail(InvalidCharacters) <==> HasInvalidChar(filename)) && (r == Pass <==> !HasInvalidChar(filename))
  {
    if filename == "" then Fail(EmptyName)
    else if '.' !in filename then
      assert forall i :: !LastDotAt(filename, i) by {
        forall i | 0 <= i < |filename| ensures filename[i] != '.' { assert filename[i] in filename; }
      }
      Fail(NoExtension)
    else
      var i := LastIndexOf(filename, '.').value;
      AfterLastDotDecides(filename, i, allowed);
      CheckAfterLastDot(filename, i, allowed)
  }

  /** The checks from `rsplit('.', 1)` on, given that the last `.` is at `i`. */
  function CheckAfterLastDot(filename: string, i: int, allowed: seq<string>): Check<NameError>
    requires LastDotAt(filename, i)
  {
    var name, ext := filename[..i], filename[i + 1..];
    assert name == "" <==> i == 0 by { assert |name| == i; }
    if name == "" then Fail(StartsWithDot)
    else if ext !in AllowedSuffixes(allowed) then Fail(ExtensionNotAllowed(ext))
    else if HasInvalidChar(filename) then Fail(InvalidCharacters)
    else Pass
  }

  /** `i` is the position of the last `.` in `f`. */
  predicate LastDotAt(f: string, i: int) {
    0 <= i < |f| && f[i] == '.' && forall j :: i < j < |f| ==> f[j] != '.'
  }

  /** What the checks after the last `.` decide holds for every description of that `.`. */
  lemma AfterLastDotDecides(f: string, i: int, allowed: seq<string>)
    requires LastDotAt(f, i)
    ensures var r := CheckAfterLastDot(f, i, allowed);
            && r != Fail(EmptyName) && r != Fail(NoExtension)
            && (r == Fail(StartsWithDot) <==> LastDotAt(f, 0))
            && (forall j :: LastDotAt(f, j) && 0 < j ==>
                  (r == Fail(ExtensionNotAllowed(f[j + 1..])) <==> f[j + 1..] !in AllowedSuffixes(allowed)))
            && (forall j :: LastDotAt(f, j) && 0 < j && f[j + 1..] in AllowedSuffixes(allowed) ==>
                  (r == Fail(InvalidCharacters) <==> HasInvalidChar(f)) && (r == Pass <==> !HasInvalidChar(f)))
  {
    var r := CheckAfterLastDot(f, i, allowed);
    if LastDotAt(f, 0) {
      LastDotUnique(f, 0, i);
    }
    forall j | LastDotAt(f, j) && 0 < j
      ensures r == Fail(ExtensionNotAllowed(f[j + 1..])) <==> f[j + 1..] !in AllowedSuffixes(allowed)
    {
      LastDotUnique(f, j, i);
    }
    forall j | LastDotAt(f, j) && 0 < j && f[j + 1..] in AllowedSuffixes(allowed)
      ensures (r == Fail(InvalidCharacters) <==> HasInvalidChar(f)) && (r == Pass <==> !HasInvalidChar(f))
    {
      LastDotUnique(f, j, i);
    }
  }

  /** A string has at most one last `.`. */
  lemma LastDotUnique(f: string, i: int, j: int)
    requires LastDotAt(f, i) && LastDotAt(f, j)
    ensures i == j
  {
  }

  /**
   * What an acceptable filename is, stated without the order of the checks:
   * there is a last `.`, preceded by at least one character and followed by an
   * allowed extension, and no character of the name is an invalid one.
   */
  ghost predicate AcceptableName(f: string, allowed: seq<string>) {
    && (exists i :: LastDotAt(f, i) && 0 < i && f[i + 1..] in AllowedSuffixes(allowed))
    && (forall k :: 0 <= k < |f| ==> f[k] !in InvalidChars)
  }

  /** `validate_file_name` returns `(True, "")` exactly for the acceptable names. */
  lemma NameAcceptedIff(f: string, allowed: seq<string>)
    ensures ValidateFileName(f, allowed) == Pass <==> AcceptableName(f, allowed)
  {
    if ValidateFileName(f, allowed) == Pass {
      AcceptedNameIsAcceptable(f, allowed);
    }
    if AcceptableName(f, allowed) {
      AcceptableNameIsAccepted(f, allowed);
    }
  }

  /** A name `validate_file_name` accepts has a last `.` after some character, an allowed extension and no invalid character. */
  lemma AcceptedNameIsAcceptable(f: string, allowed: seq<string>)
    requires ValidateFileName(f, allowed) == Pass
    ensures AcceptableName(f, allowed)
  {
    var i := LastIndexOf(f, '.').value;
    assert LastDotAt(f, i);
    assert 0 < i && f[i + 1..] in AllowedSuffixes(allowed);
  }

  /** An acceptable name passes every check of `validate_file_name`. */
  lemma AcceptableNameIsAccepted(f: string, allowed: seq<string>)
    requires AcceptableName(f, allowed)
    ensures ValidateFileName(f, allowed) == Pass
  {
    var i :| LastDotAt(f, i) && 0 < i && f[i + 1..] in AllowedSuffixes(allowed);
    assert !HasInvalidChar(f);
  }

  /**
   * No accepted filename contains a `/` or a `\`, whatever the configured
   * extensions: a name carrying a path separator never reaches the store.
   */
  lemma SeparatorRejected(f: string, allowed: seq<string>)
    requires '/' in f || '\\' in f
    ensures ValidateFileName(f, allowed) != Pass
  {
    NameAcceptedIff(f, allowed);
    assert InvalidChars[7] == '\\' && InvalidChars[8] == '/';
  }

  /** The three path-traversal names are rejected under every extension setting. */
  lemma TraversalNamesRejected(allowed: seq<string>)
    ensures ValidateFileName("../../../etc/passwd", allowed) != Pass
    ensures ValidateFileName("..\\..\\windows\\system32\\config\\sam", allowed) != Pass
    ensures ValidateFileName("test/../../secret.py", allowed) != Pass
  {
    var a, b, c := "../../../etc/passwd", "..\\..\\windows\\system32\\config\\sam", "test/../../secret.py";
    assert a[2] == '/' && b[2] == '\\' && c[4] == '/';
    SeparatorRejected(a, allowed);
    SeparatorRejected(b, allowed);
    SeparatorRejected(c, allowed);
  }

  /**
   * There is no check for `..`: with the default extensions `test..py` is
   * accepted (the part before the last `.` is `test.`).
   */
  lemma DoubleDotAccepted()
    ensures ValidateFileName("test..py", DefaultExtensions) == Pass
  {
    DoubleDotLastDot();
    DoubleDotExtension();
    DoubleDotClean();
    AcceptableNameIsAccepted("test..py", DefaultExtensions);
  }

  /** The last `.` of `test..py` is at index 5. */
  lemma DoubleDotLastDot()
    ensures LastDotAt("test..py", 5)
  {
    var f := "test..py";
    assert f[5] == '.' && f[6] == 'p' && f[7] == 'y';
  }

  /** The part of `test..py` after its last `.` is `py`, an allowed extension by default. */
  lemma DoubleDotExtension()
    ensures "test..py"[6..] in AllowedSuffixes(DefaultExtensions)
  {
    var f := "test..py";
    assert f[6..] == "py";
    assert AllowedSuffixes(DefaultExtensions)[0] == "py";
  }

  /** `test..py` has only letters and dots. */
  lemma DoubleDotClean()
    ensures !HasInvalidChar("test..py")
  {
    var f := "test..py";
    assert f[0] == 't' && f[1] == 'e' && f[2] == 's' && f[3] == 't' && f[4] == '.' && f[5] == '.' && f[6] == 'p' && f[7] == 'y';
    LowercaseNameIsClean(f);
  }

  /** A name made of lower-case letters and dots holds no invalid character. */
  lemma LowercaseNameIsClean(f: string)
    requires forall k :: 0 <= k < |f| ==> f[k] == '.' || 'a' <= f[k] <= 'z'
    ensures !HasInvalidChar(f)
  {
    forall k | 0 <= k < |f| ensures f[k] !in InvalidChars {
      assert forall j :: 0 <= j < |InvalidChars| ==> InvalidChars[j] != f[k];
    }
  }

  /**
   * The first pattern of `patterns`, in list order, that occurs in `s`: the
   * loop `for pattern in patterns: if pattern in s: return ...`.
   */
  function FirstOccurring(s: string, patterns: seq<string>): (r: Option<string>)
    ensures r.None? <==> forall k :: 0 <= k < |patterns| ==> !Contains(s, patterns[k])
    ensures r.Some? ==> exists k :: 0 <= k < |patterns| && patterns[k] == r.value && Contains(s, patterns[k])
                                    && forall j :: 0 <= j < k ==> !Contains(s, patterns[j])
  {
    if patterns == [] then None
    else if Contains(s, patterns[0]) then Some(patterns[0])
    else
      var r := FirstOccurring(s, patterns[1..]);
      assert r.Some? ==> exists k :: 1 <= k < |patterns| && patterns[k] == r.value && Contains(s, patterns[k])
                                    && forall j :: 0 <= j < k ==> !Contains(s, patterns[j]) by {
        if r.Some? {
          var k :| 0 <= k < |patterns| - 1 && patterns[1..][k] == r.value && Contains(s, patterns[1..][k])
                   && forall j :: 0 <= j < k ==> !Contains(s, patterns[1..][j]);
          assert patterns[k + 1] == patterns[1..][k];
          forall j | 0 <= j < k + 1 ensures !Contains(s, patterns[j]) {
            if j > 0 { assert patterns[j] == patterns[1..][j - 1]; }
          }
        }
      }
      assert r.None? ==> forall k :: 0 <= k < |patterns| ==> !Contains(s, patterns[k]) by {
        if r.None? {
          forall k | 0 <= k < |patterns| ensures !Contains(s, patterns[k]) {
            if k > 0 { assert patterns[k] == patterns[1..][k - 1]; }
          }
        }
      }
      r
  }

  /**
   * `validate_file_content`: the length (in characters) is at most
   * `maxFileSize`, then the lower-cased content is scanned for the patterns.
   */
  function ValidateFileContent(content: string, maxFileSize: int): (r: Check<ContentError>)
    ensures r == Fail(TooLarge(maxFileSize)) <==> |content| > maxFileSize
    ensures r.Fail? && r.error.DangerousPattern? ==>
              r.error.pattern in DangerousPatterns && Contains(Lower(content), r.error.pattern)
    ensures r.Fail? && r.error.DangerousPattern? ==> FirstOccurring(Lower(content), DangerousPatterns) == Some(r.error.pattern)
  {
    if |content| > maxFileSize then Fail(TooLarge(maxFileSize))
    else match FirstOccurring(Lower(content), DangerousPatterns)
      case Some(p) => Fail(DangerousPattern(p))
      case None => Pass
  }

  /** Content is accepted exactly when it fits and no listed pattern occurs in its lower-cased form. */
  lemma ContentAcceptedIff(content: string, maxFileSize: int)
    ensures ValidateFileContent(content, maxFileSize) == Pass
        <==> |content| <= maxFileSize
             && forall p :: p in DangerousPatterns ==> !Contains(Lower(content), p)
  {
    if |content| <= maxFileSize && FirstOccurring(Lower(content), DangerousPatterns).Some? {
      var p := FirstOccurring(Lower(content), DangerousPatterns).value;
      assert p in DangerousPatterns;
    }
  }

  /** The empty content is accepted under any non-negative size limit. */
  lemma EmptyContentAccepted(maxFileSize: int)
    requires maxFileSize >= 0
    ensures ValidateFileContent("", maxFileSize) == Pass
  {
    assert Lower("") == "";
    forall k | 0 <= k < |DangerousPatterns| ensures !Contains("", DangerousPatterns[k]) {
      assert |DangerousPatterns[k]| > 0;
    }
  }

  /** Content one character over the limit is rejected as too large. */
  lemma OversizeContentRejected(content: string, maxFileSize: int)
    requires |content| == maxFileSize + 1
    ensures ValidateFileContent(content, maxFileSize) == Fail(TooLarge(maxFileSize))
  {
  }

  /** The check is a case-insensitive scan: `import os` is rejected, whatever the size limit allows. */
  lemma ImportOsRejected()
    ensures ValidateFileContent("\nimport os\nos.system('rm -rf /')\n", 100000).Fail?
  {
    var c := "\nimport os\nos.system('rm -rf /')\n";
    var p := "import os";
    assert forall k :: 0 <= k < 9 ==> Lower(c)[1..10][k] == c[k + 1] == p[k];
    assert Lower(c)[1..10] == p;
    assert OccursAt(Lower(c), "import os", 1);
    assert DangerousPatterns[0] == "import os";
    ContentAcceptedIff(c, 100000);
  }
}
