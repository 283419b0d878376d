/**
 * The Advanced Coding block: a learner's project (an insertion-ordered
 * dictionary from filename to file record, with the active file and the
 * current language beside it) and the learner's grade state (submission log,
 * submission count, current and best score). The handlers `save_file`,
 * `delete_file`, `rename_file` and `submit_solution` are methods that update
 * these fields in place; every failure is a returned value, never an
 * exception.
 */
module AdvancedCoding {
  import opened Wrappers
  import opened Text
  import opened Validation
  import opened Grading

  /** One entry of `supported_languages`; `extension` and `template` may be missing. */
  datatype LanguageConfig = LanguageConfig(id: int, name: string, extension: Option<string>, template: Option<string>)

  /** The author-scoped settings the handlers read and never write. */
  datatype Settings = Settings(
    supportedLanguages: map<string, LanguageConfig>,
    defaultLanguage: string,
    testCases: seq<TestCase>,
    maxScore: real,
    maxFiles: int,
    maxFileSize: int,
    allowedFileExtensions: seq<string>)

  /** The settings' defaults. */
  function DefaultSettings(): Settings {
    Settings(
      map[
        "java" := LanguageConfig(62, "Java", Some("java"), Some(JavaTemplate)),
        "cpp" := LanguageConfig(76, "C++", Some("cpp"), Some(CppTemplate)),
        "javascript" := LanguageConfig(63, "JavaScript", Some("js"), Some(JavaScriptTemplate)),
        "c" := LanguageConfig(75, "C", Some("c"), Some(CTemplate)),
        "python" := LanguageConfig(71, "Python 3", Some("py"), Some(PythonTemplate))
      ],
      "python",
      [SampleTest],
      100.0,
      10,
      100000,
      DefaultExtensions)
  }

  /** The `template` of each default language. */
  const PythonTemplate := "# Write your Python code here\nprint('Hello, World!')"
  const JavaTemplate := "public class Main {\n    public static void main(String[] args) {\n        System.out.println(\"Hello, World!\");\n    }\n}"
  const CppTemplate := "#include <iostream>\nusing namespace std;\n\nint main() {\n    cout << \"Hello, World!\" << endl;\n    return 0;\n}"
  const JavaScriptTemplate := "// Write your JavaScript code here\nconsole.log('Hello, World!');"
  const CTemplate := "#include <stdio.h>\n\nint main() {\n    printf(\"Hello, World!\\n\");\n    return 0;\n}"

  /** A value of `student_files`; `created` and `modified` are opaque timestamps. */
  datatype FileRecord = FileRecord(content: string, language: string, created: string, modified: string)

  /** Why a file handler answered `{'success': False, ...}`. */
  datatype FileError =
    | InvalidName(nameError: NameError)
    | InvalidContent(contentError: ContentError)
    | FileLimitReached(limit: int)
    | FilenameRequired
    | FileNotFound
    | CannotDeleteLastFile
    | BothFilenamesRequired
    | NameTaken
  {
    function Message(): string {
      match this
      case InvalidName(e) => e.Message()
      case InvalidContent(e) => e.Message()
      case FileLimitReached(limit) => "Maximum file limit (" + IntToString(limit) + ") reached"
      case FilenameRequired => "Filename is required"
      case FileNotFound => "File not found"
      case CannotDeleteLastFile => "Cannot delete the last file"
      case BothFilenamesRequired => "Both old and new filenames are required"
      case NameTaken => "File with that name already exists"
    }
  }

  /** One entry of `submissions`, with a copy of the project as it was submitted. */
  datatype Submission = Submission(
    id: string,
    timestamp: string,
    testResults: seq<TestResult>,
    totalScore: int,
    fileOrder: seq<string>,
    files: map<string, FileRecord>)

  /** The answer of `submit_solution`. */
  datatype SubmitResponse =
    | Submitted(totalScore: int, maxScore: real, testResults: seq<TestResult>, submissionId: string)
    | SubmitFailed(error: string)

  /** The message of the catch-all handler. */
  const InternalError := "Internal server error"

  predicate Distinct(s: seq<string>) {
    forall i, j :: 0 <= i < j < |s| ==> s[i] != s[j]
  }

  /**
   * The key order after `del d[k]`: on a key list without repeats, `k` is cut
   * out at its position and every other key keeps its place, so the first
   * remaining key is the old first key, or the old second one when the first
   * was `k`.
   */
  function Without(s: seq<string>, k: string): (r: seq<string>)
    ensures forall x :: x in r <==> x in s && x != k
    ensures k !in s ==> r == s
    ensures Distinct(s) ==> Distinct(r)
    ensures Distinct(s) && k in s ==> |r| == |s| - 1
    ensures Distinct(s) && k in s && |s| >= 2 ==> r != [] && r[0] == (if s[0] == k then s[1] else s[0])
  {
    if s == [] then []
    else
      var n := |s| - 1;
      var p := s[..n];
      assert s == p + [s[n]];
      var w := Without(p, k);
      assert Distinct(s) ==> Distinct(p) && s[n] !in w by {
        if Distinct(s) {
          assert forall i :: 0 <= i < n ==> p[i] == s[i];
          assert s[n] !in p;
        }
      }
      if s[n] == k then w else w + [s[n]]
  }

  /**
   * On a key list without repeats, `del` cuts `k` out at its position and
   * every other key keeps its place.
   */
  lemma {:induction false} WithoutKeepsPlaces(s: seq<string>, k: string, i: int)
    requires Distinct(s) && 0 <= i < |s| && s[i] == k
    ensures Without(s, k) == s[..i] + s[i + 1..]
    decreases |s|
  {
    var n := |s| - 1;
    var p := s[..n];
    assert Without(s, k) == if s[n] == k then Without(p, k) else Without(p, k) + [s[n]];
    if i == n {
      assert k !in p by {
        forall j | 0 <= j < n ensures p[j] != k {
          assert p[j] == s[j];
        }
      }
      assert s[..i] + s[i + 1..] == p;
    } else {
      assert Distinct(p) && p[i] == k by {
        assert forall j :: 0 <= j < n ==> p[j] == s[j];
      }
      WithoutKeepsPlaces(p, k, i);
      assert s[..i] + s[i + 1..] == p[..i] + p[i + 1..] + [s[n]];
    }
  }

  /** `self.default_language or 'python'`: the configured default language, `python` when it is empty. */
  function StarterLanguage(settings: Settings): (r: string)
    ensures r != ""
    ensures settings.defaultLanguage != "" ==> r == settings.defaultLanguage
  {
    if settings.defaultLanguage == "" then "python" else settings.defaultLanguage
  }

  /** The language's configuration, or `{}` when it is not configured. */
  function StarterConfig(settings: Settings): Option<LanguageConfig> {
    var lang := StarterLanguage(settings);
    if lang in settings.supportedLanguages then Some(settings.supportedLanguages[lang]) else None
  }

  /**
   * `main.` followed by the default language's extension: the extension comes
   * from a configured language, or is `py` when there is none.
   */
  function StarterName(settings: Settings): (r: string)
    ensures |r| >= 5 && r[..5] == "main."
    ensures r == "main.py" || exists c :: c in settings.supportedLanguages.Values && c.extension.Some? && r == "main." + c.extension.value
  {
    var config := StarterConfig(settings);
    var ext := if config.Some? && config.value.extension.Some? then config.value.extension.value else "py";
    var r := "main." + ext;
    assert r[..5] == "main." && r[5..] == ext;
    assert ext != "py" ==> config.Some? && config.value in settings.supportedLanguages.Values && config.value.extension.Some? && r == "main." + config.value.extension.value;
    r
  }

  /** The default language's template: one a configured language holds, or a generic comment. */
  function StarterTemplate(settings: Settings): (r: string)
    ensures r == "# Write your code here" || exists c :: c in settings.supportedLanguages.Values && c.template == Some(r)
  {
    var config := StarterConfig(settings);
    assert config.Some? ==> config.value in settings.supportedLanguages.Values;
    if config.Some? && config.value.template.Some? then config.value.template.value else "# Write your code here"
  }

  /** Under the default settings the starter file is `main.py`, a Python file holding the Python template. */
  lemma DefaultStarterIsMainPy()
    ensures StarterName(DefaultSettings()) == "main.py"
    ensures StarterLanguage(DefaultSettings()) == "python"
    ensures StarterTemplate(DefaultSettings()) == PythonTemplate
  {
    var s := DefaultSettings();
    var python := s.supportedLanguages["python"];
    assert python.extension == Some("py");
    assert StarterLanguage(s) == "python" by { assert s.defaultLanguage[0] == 'p'; }
    assert StarterConfig(s) == Some(python);
  }

  /** The scores of the submissions, oldest first. */
  function Totals(submissions: seq<Submission>): (r: seq<int>)
    ensures |r| == |submissions|
  {
    seq(|submissions|, i requires 0 <= i < |submissions| => submissions[i].totalScore)
  }

  /**
   * The count is the length of the log, the current score is the last
   * submission's (0 before any) and the best score is the highest seen,
   * starting from 0.
   */
  ghost predicate GradesAgree(submissions: seq<Submission>, count: int, current: int, best: int) {
    && count == |submissions|
    && current == (if submissions == [] then 0 else submissions[|submissions| - 1].totalScore)
    && best == BestAfter(0, Totals(submissions))
  }

  /** Removing a key other than the one appended commutes with the append. */
  lemma WithoutAppend(s: seq<string>, k: string, x: string)
    requires x != k
    ensures Without(s + [x], k) == Without(s, k) + [x]
  {
    assert (s + [x])[..|s|] == s;
  }

  lemma RemoveKeyCard(m: map<string, FileRecord>, k: string)
    requires k in m
    ensures |m - {k}| == |m| - 1
  {
    assert (m - {k}).Keys == m.Keys - {k};
    assert m.Keys == (m - {k}).Keys + {k};
  }

  /** `student_files` (its keys in insertion order, and the records by key), `active_file` and `current_language`. */
  datatype Project = Project(order: seq<string>, files: map<string, FileRecord>, activeFile: string, currentLanguage: string)

  /** `order` lists each key of `files` exactly once, as a dictionary's key view does. */
  ghost predicate WellFormed(p: Project) {
    Distinct(p.order) && forall k :: k in p.files <==> k in p.order
  }

  /** The invariant the file handlers keep: the active file is one of the files, so there is at least one. */
  ghost predicate Populated(p: Project) {
    p.activeFile in p.files
  }

  /** A populated project holds at least one file. */
  lemma PopulatedHasFile(p: Project)
    requires Populated(p)
    ensures |p.files| >= 1
  {
    assert p.files.Keys != {};
  }

  /** The response of a file handler and the project after it. */
  datatype Step<+T> = Step(response: Result<T, FileError>, after: Project)

  /**
   * `student_files[name] = record`: an existing key keeps its place, a new one
   * goes last; the entry holds the record afterwards, and the active file and
   * language stay as they were.
   */
  function Put(p: Project, name: string, record: FileRecord): (q: Project)
    ensures name in q.files && q.files[name] == record
    ensures q.activeFile == p.activeFile && q.currentLanguage == p.currentLanguage
  {
    p.(order := if name in p.files then p.order else p.order + [name], files := p.files[name := record])
  }

  /**
   * Setting an entry changes that entry only; the count grows by one exactly
   * when the name is new; the key list stays a key view of the files.
   */
  lemma PutEffect(p: Project, name: string, record: FileRecord)
    requires WellFormed(p)
    ensures var q := Put(p, name, record);
            && q.files.Keys == p.files.Keys + {name}
            && q.files[name] == record
            && (forall k :: k in p.files && k != name ==> q.files[k] == p.files[k])
            && |q.files| == |p.files| + (if name in p.files then 0 else 1)
            && q.activeFile == p.activeFile && q.currentLanguage == p.currentLanguage
            && WellFormed(q)
            && (Populated(p) ==> Populated(q))
  {
    var q := Put(p, name, record);
    if name !in p.files {
      forall i, j | 0 <= i < j < |q.order| ensures q.order[i] != q.order[j] {
        if j == |p.order| { assert q.order[i] in p.order; }
      }
    }
  }

  /** The invariants alone, for the handlers' state proofs. */
  lemma PutKeepsWellFormed(p: Project, name: string, record: FileRecord)
    requires WellFormed(p)
    ensures WellFormed(Put(p, name, record))
    ensures Populated(p) ==> Populated(Put(p, name, record))
  {
    PutEffect(p, name, record);
  }

  /**
   * `del student_files[name]`, and, when `name` was the active file, the
   * first remaining key becomes active together with its language.
   */
  function Remove(p: Project, name: string): (q: Project)
    requires WellFormed(p) && name in p.files && |p.files| >= 2
    ensures q.files.Keys == p.files.Keys - {name}
    ensures forall k :: k in q.files ==> q.files[k] == p.files[k]
    ensures q.activeFile != name
  {
    var order := Without(p.order, name);
    var files := p.files - {name};
    assert order != [] by {
      RemoveKeyCard(p.files, name);
      var k :| k in files;
    }
    if p.activeFile == name then Project(order, files, order[0], files[order[0]].language)
    else p.(order := order, files := files)
  }

  /**
   * Removing an entry drops exactly that key, leaves at least one file, and
   * re-points the active file only when it was the removed one: to the
   * first key in insertion order other than `name`.
   */
  lemma RemoveEffect(p: Project, name: string)
    requires WellFormed(p) && name in p.files && |p.files| >= 2
    ensures Remove(p, name).files.Keys == p.files.Keys - {name}
    ensures forall k :: k in Remove(p, name).files ==> Remove(p, name).files[k] == p.files[k]
    ensures |Remove(p, name).files| == |p.files| - 1 >= 1
    ensures p.activeFile == name ==>
              && Remove(p, name).activeFile == (if p.order[0] == name then p.order[1] else p.order[0])
              && Remove(p, name).currentLanguage == p.files[Remove(p, name).activeFile].language
    ensures p.activeFile != name ==>
              Remove(p, name).activeFile == p.activeFile && Remove(p, name).currentLanguage == p.currentLanguage
  {
    RemoveKeyCard(p.files, name);
    TwoKeys(p, name);
  }

  /** The key list after a removal is still a key view of the files, and the active file still names a file. */
  lemma RemoveKeepsWellFormed(p: Project, name: string)
    requires WellFormed(p) && name in p.files && |p.files| >= 2
    ensures WellFormed(Remove(p, name))
    ensures Populated(p) ==> Populated(Remove(p, name))
    ensures Without(p.order, name) != []
  {
    TwoKeys(p, name);
  }

  /** Two files mean two listed keys, so one is left once `name` is gone. */
  lemma TwoKeys(p: Project, name: string)
    requires WellFormed(p) && name in p.files && |p.files| >= 2
    ensures |p.order| >= 2 && |Without(p.order, name)| == |p.order| - 1
  {
    RemoveKeyCard(p.files, name);
    var k :| k in p.files && k != name;
    var i :| 0 <= i < |p.order| && p.order[i] == k;
    var j :| 0 <= j < |p.order| && p.order[j] == name;
    assert i != j;
  }

  /**
   * `student_files[to] = student_files[from]; del student_files[from]`, with
   * the active file following the move.
   */
  function Move(p: Project, from: string, to: string): (q: Project)
    requires from in p.files
    ensures from != to ==> q.files.Keys == p.files.Keys - {from} + {to} && q.files[to] == p.files[from]
    ensures forall k :: k in p.files && k != from && k != to ==> k in q.files && q.files[k] == p.files[k]
    ensures from != to ==> q.activeFile != from
  {
    p.(order := Without(p.order + [to], from),
       files := p.files[to := p.files[from]] - {from},
       activeFile := if p.activeFile == from then to else p.activeFile)
  }

  /**
   * Moving a record to a fresh key replaces the old key by the new one,
   * keeps the record, the other entries and the count, and the active file
   * follows; the current language is untouched.
   */
  lemma MoveEffect(p: Project, from: string, to: string)
    requires from in p.files && to !in p.files
    ensures Move(p, from, to).files.Keys == p.files.Keys - {from} + {to}
    ensures Move(p, from, to).files[to] == p.files[from]
    ensures forall k :: k in p.files && k != from ==> Move(p, from, to).files[k] == p.files[k]
    ensures |Move(p, from, to).files| == |p.files|
    ensures Move(p, from, to).activeFile == (if p.activeFile == from then to else p.activeFile)
    ensures Move(p, from, to).currentLanguage == p.currentLanguage
  {
    RemoveKeyCard(p.files[to := p.files[from]], from);
  }

  /**
   * After a move the new key is listed last, in place of nothing, and the
   * key list is still a key view of the files; the active file still names
   * a file.
   */
  lemma MoveKeepsWellFormed(p: Project, from: string, to: string)
    requires WellFormed(p) && from in p.files && to !in p.files
    ensures Move(p, from, to).order == Without(p.order, from) + [to]
    ensures WellFormed(Move(p, from, to))
    ensures Populated(p) ==> Populated(Move(p, from, to))
  {
    MoveEffect(p, from, to);
    WithoutAppend(p.order, from, to);
    MoveOrder(p.order, from, to);
  }

  /** The key list after a move still lists each key once. */
  lemma MoveOrder(order: seq<string>, from: string, to: string)
    requires Distinct(order) && from in order && to !in order
    ensures Distinct(Without(order, from) + [to])
    ensures forall x :: x in Without(order, from) + [to] <==> (x in order && x != from) || x == to
  {
    var w := Without(order, from);
    forall i, j | 0 <= i < j < |w| + 1 ensures (w + [to])[i] != (w + [to])[j] {
      if j == |w| { assert (w + [to])[i] in w; }
    }
  }

  /**
   * `save_file`: the name is stripped, then checked, then the content, then
   * the file quota for a new name; only then is the entry for that name set.
   * The source's "new file" test that would move the active file runs after
   * the insert, so it never holds: the active file and the current language
   * stay as they were.
   */
  function SaveStep(p: Project, settings: Settings, filename: string, content: string, language: Option<string>, now: string): (s: Step<string>)
    ensures s.response.Failure? ==> s.after == p
    ensures s.response.Success? ==> s.response.value == Strip(filename) && Strip(filename) in s.after.files && s.after.files[Strip(filename)].content == content
  {
    var name := Strip(filename);
    var nameCheck := ValidateFileName(name, settings.allowedFileExtensions);
    var contentCheck := ValidateFileContent(content, settings.maxFileSize);
    if nameCheck.Fail? then Step(Failure(InvalidName(nameCheck.error)), p)
    else if contentCheck.Fail? then Step(Failure(InvalidContent(contentCheck.error)), p)
    else if name !in p.files && |p.files| >= settings.maxFiles then Step(Failure(FileLimitReached(settings.maxFiles)), p)
    else
      var lang := if language.Some? then language.value else p.currentLanguage;
      Step(Success(name), Put(p, name, FileRecord(content, lang, now, now)))
  }

  /**
   * `save_file` fails, changing nothing, exactly when the stripped name or
   * the content is invalid, or the name is new and the quota is reached;
   * otherwise it stores the content under the stripped name, tagged with the
   * given language or else the current one, and never passes the quota it
   * started within.
   */
  lemma SaveOutcome(p: Project, settings: Settings, filename: string, content: string, language: Option<string>, now: string)
    requires WellFormed(p)
    ensures var s := SaveStep(p, settings, filename, content, language, now);
            var name := Strip(filename);
            && (s.response.Failure? <==>
                  || ValidateFileName(name, settings.allowedFileExtensions).Fail?
                  || ValidateFileContent(content, settings.maxFileSize).Fail?
                  || (name !in p.files && |p.files| >= settings.maxFiles))
            && (s.response.Failure? ==> s.after == p)
            && (s.response.Success? ==>
                  && s.response.value == name
                  && s.after == Put(p, name, FileRecord(content, if language.Some? then language.value else p.currentLanguage, now, now))
                  && (|p.files| <= settings.maxFiles ==> |s.after.files| <= settings.maxFiles))
  {
    SaveDecides(p, settings, filename, content, language, now);
    SaveWithinQuota(p, settings, filename, content, language, now);
  }

  /** Which inputs `save_file` refuses, and what it stores otherwise. */
  lemma SaveDecides(p: Project, settings: Settings, filename: string, content: string, language: Option<string>, now: string)
    ensures var s := SaveStep(p, settings, filename, content, language, now);
            var name := Strip(filename);
            && (s.response.Failure? <==>
                  || ValidateFileName(name, settings.allowedFileExtensions).Fail?
                  || ValidateFileContent(content, settings.maxFileSize).Fail?
                  || (name !in p.files && |p.files| >= settings.maxFiles))
            && (s.response.Success? ==>
                  && s.response.value == name
                  && s.after == Put(p, name, FileRecord(content, if language.Some? then language.value else p.currentLanguage, now, now)))
  {
  }

  /** A successful save stays within a quota it started within. */
  lemma SaveWithinQuota(p: Project, settings: Settings, filename: string, content: string, language: Option<string>, now: string)
    requires WellFormed(p)
    ensures var s := SaveStep(p, settings, filename, content, language, now);
            s.response.Success? && |p.files| <= settings.maxFiles ==> |s.after.files| <= settings.maxFiles
  {
    SaveDecides(p, settings, filename, content, language, now);
    var record := FileRecord(content, if language.Some? then language.value else p.currentLanguage, now, now);
    PutEffect(p, Strip(filename), record);
  }

  /**
   * `delete_file`: a stripped name that is empty, absent or the only file is
   * refused; otherwise that entry is removed.
   */
  function DeleteStep(p: Project, filename: string): (s: Step<string>)
    requires WellFormed(p)
    ensures s.response.Failure? ==> s.after == p
    ensures s.response.Success? ==> s.response.value == Strip(filename) && s.after.files.Keys == p.files.Keys - {Strip(filename)}
  {
    var name := Strip(filename);
    if name == "" then Step(Failure(FilenameRequired), p)
    else if name !in p.files then Step(Failure(FileNotFound), p)
    else if |p.files| <= 1 then Step(Failure(CannotDeleteLastFile), p)
    else Step(Success(name), Remove(p, name))
  }

  /** `delete_file` fails, changing nothing, exactly for an empty or unknown name or the last file. */
  lemma DeleteRejects(p: Project, filename: string)
    requires WellFormed(p)
    ensures var s := DeleteStep(p, filename);
            var name := Strip(filename);
            && (s.response == Failure(FilenameRequired) <==> name == "")
            && (s.response == Failure(FileNotFound) <==> name != "" && name !in p.files)
            && (s.response == Failure(CannotDeleteLastFile) <==> name != "" && name in p.files && |p.files| <= 1)
            && (s.response.Failure? ==> s.after == p)
            && (s.response.Success? ==> s.response.value == name && |s.after.files| == |p.files| - 1 >= 1)
  {
    var name := Strip(filename);
    if name != "" && name in p.files && |p.files| > 1 {
      RemoveEffect(p, name);
    }
  }

  /**
   * `rename_file`: both stripped names must be non-empty, the old one must
   * exist, the new one must pass `validate_file_name` and must not exist yet
   * (so renaming a file to itself fails); then the record moves.
   */
  function RenameStep(p: Project, settings: Settings, oldFilename: string, newFilename: string): (s: Step<(string, string)>)
    ensures s.response.Failure? ==> s.after == p
    ensures s.response.Success? ==>
              var (from, to) := s.response.value;
              && from == Strip(oldFilename) && to == Strip(newFilename)
              && from in p.files && to in s.after.files
              && s.after.files.Keys == p.files.Keys - {from} + {to} && s.after.files[to] == p.files[from]
  {
    var from, to := Strip(oldFilename), Strip(newFilename);
    var nameCheck := ValidateFileName(to, settings.allowedFileExtensions);
    if from == "" || to == "" then Step(Failure(BothFilenamesRequired), p)
    else if from !in p.files then Step(Failure(FileNotFound), p)
    else if nameCheck.Fail? then Step(Failure(InvalidName(nameCheck.error)), p)
    else if to in p.files then Step(Failure(NameTaken), p)
    else Step(Success((from, to)), Move(p, from, to))
  }

  /** `rename_file` fails, changing nothing, exactly in the cases the source lists, checked in its order. */
  lemma RenameRejects(p: Project, settings: Settings, oldFilename: string, newFilename: string)
    ensures var s := RenameStep(p, settings, oldFilename, newFilename);
            var from, to := Strip(oldFilename), Strip(newFilename);
            var nameCheck := ValidateFileName(to, settings.allowedFileExtensions);
            && (s.response == Failure(BothFilenamesRequired) <==> from == "" || to == "")
            && (s.response == Failure(FileNotFound) <==> from != "" && to != "" && from !in p.files)
            && (from != "" && to != "" && from in p.files && nameCheck.Fail? ==>
                  s.response == Failure(InvalidName(nameCheck.error)))
            && (s.response == Failure(NameTaken) <==> from != "" && to != "" && from in p.files && nameCheck == Pass && to in p.files)
            && (s.response.Failure? ==> s.after == p)
            && (s.response.Success? ==> s.response.value == (from, to) && s.after == Move(p, from, to))
  {
  }

  /** Renaming a file to its own name always fails. */
  lemma RenameToSelfFails(p: Project, settings: Settings, name: string)
    ensures RenameStep(p, settings, name, name).response.Failure?
  {
  }

  class AdvancedCodingBlock {
    const settings: Settings

    /** `student_files`: its keys in insertion order, and the records by key. */
    var order: seq<string>
    var files: map<string, FileRecord>
    var activeFile: string
    var currentLanguage: string

    var submissions: seq<Submission>
    var submissionCount: int
    var currentScore: int
    var bestScore: int

    /**
     * `order` lists each key of `files` once; the count is the length of the
     * log, the current score is the last submission's and the best score is
     * the highest seen, starting from 0.
     */
    ghost predicate Consistent()
      reads this
    {
      WellFormed(FileState()) && GradesAgree(submissions, submissionCount, currentScore, bestScore)
    }

    /** Besides, the project holds at least one file and the active file is one of them. */
    ghost predicate Valid()
      reads this
    {
      WellFormed(FileState()) && Populated(FileState()) && GradesAgree(submissions, submissionCount, currentScore, bestScore)
    }

    ghost function FileState(): Project
      reads this
    {
      Project(order, files, activeFile, currentLanguage)
    }

    ghost function GradeState(): (seq<Submission>, int, int, int)
      reads this
    {
      (submissions, submissionCount, currentScore, bestScore)
    }

    /** `__init__`: the user state starts at its defaults, then the starter file is seeded. */
    constructor (settings: Settings, now: string)
      ensures Valid() && this.settings == settings
      ensures order == [StarterName(settings)]
      ensures files == map[StarterName(settings) := FileRecord(StarterTemplate(settings), StarterLanguage(settings), now, now)]
      ensures activeFile == StarterName(settings) && currentLanguage == StarterLanguage(settings)
      ensures submissions == [] && submissionCount == 0 && currentScore == 0 && bestScore == 0
    {
      this.settings := settings;
      order, files := [], map[];
      activeFile, currentLanguage := "main.py", "python";
      submissions, submissionCount := [], 0;
      currentScore, bestScore := 0, 0;
      new;
      InitializeStudentFiles(now);
    }

    /**
     * `_initialize_student_files`: an empty project receives exactly one file,
     * `main.<ext>` holding the default language's template, which becomes the
     * active file; a project with files is left as it is.
     */
    method InitializeStudentFiles(now: string)
      requires Consistent()
      modifies this
      ensures Consistent() && GradeState() == old(GradeState())
      ensures old(files) == map[] ==> Valid()
      ensures old(files) == map[] ==>
                && order == [StarterName(settings)]
                && files == map[StarterName(settings) := FileRecord(StarterTemplate(settings), StarterLanguage(settings), now, now)]
                && activeFile == StarterName(settings)
                && currentLanguage == StarterLanguage(settings)
      ensures old(files) != map[] ==> FileState() == old(FileState())
      ensures |files| >= 1
    {
      if files == map[] {
        var name := StarterName(settings);
        files := map[name := FileRecord(StarterTemplate(settings), StarterLanguage(settings), now, now)];
        order := [name];
        activeFile := name;
        currentLanguage := StarterLanguage(settings);
      } else {
        assert files.Keys != {} by {
          var k :| k in files;
        }
      }
    }

    /** `save_file`, proved against SaveStep. */
    method SaveFile(filename: string, content: string, language: Option<string>, now: string)
      returns (r: Result<string, FileError>)
      requires Valid()
      modifies this
      ensures Valid() && GradeState() == old(GradeState())
      ensures Step(r, FileState()) == SaveStep(old(FileState()), settings, filename, content, language, now)
    {
      var name := Strip(filename);
      var nameCheck := ValidateFileName(name, settings.allowedFileExtensions);
      if nameCheck.Fail? {
        return Failure(InvalidName(nameCheck.error));
      }
      var contentCheck := ValidateFileContent(content, settings.maxFileSize);
      if contentCheck.Fail? {
        return Failure(InvalidContent(contentCheck.error));
      }
      if name !in files && |files| >= settings.maxFiles {
        return Failure(FileLimitReached(settings.maxFiles));
      }
      var lang := if language.Some? then language.value else currentLanguage;
      StoreRecord(name, FileRecord(content, lang, now, now));
      r := Success(name);
    }

    /** `student_files[name] = record`. */
    method StoreRecord(name: string, record: FileRecord)
      requires Valid()
      modifies this
      ensures Valid() && GradeState() == old(GradeState())
      ensures FileState() == Put(old(FileState()), name, record)
    {
      ghost var q := Put(FileState(), name, record);
      PutKeepsWellFormed(FileState(), name, record);
      if name !in files {
        order := order + [name];
      }
      files := files[name := record];
      assert FileState() == q;
    }

    /** `delete_file`, proved against DeleteStep. */
    method DeleteFile(filename: string) returns (r: Result<string, FileError>)
      requires Valid()
      modifies this
      ensures Valid() && GradeState() == old(GradeState())
      ensures Step(r, FileState()) == DeleteStep(old(FileState()), filename)
    {
      var name := Strip(filename);
      if name == "" {
        return Failure(FilenameRequired);
      }
      if name !in files {
        return Failure(FileNotFound);
      }
      if |files| <= 1 {
        return Failure(CannotDeleteLastFile);
      }
      DropRecord(name);
      r := Success(name);
    }

    /** `del student_files[name]`, then the active file moves to the first remaining key if it was `name`. */
    method DropRecord(name: string)
      requires Valid() && name in files && |files| >= 2
      modifies this
      ensures Valid() && GradeState() == old(GradeState())
      ensures FileState() == Remove(old(FileState()), name)
    {
      ghost var p := FileState();
      RemoveKeepsWellFormed(p, name);
      files, order := files - {name}, Without(order, name);
      if activeFile == name {
        activeFile, currentLanguage := order[0], files[order[0]].language;
      }
      assert FileState() == Remove(p, name);
    }

    /** `rename_file`, proved against RenameStep. */
    method RenameFile(oldFilename: string, newFilename: string) returns (r: Result<(string, string), FileError>)
      requires Valid()
      modifies this
      ensures Valid() && GradeState() == old(GradeState())
      ensures Step(r, FileState()) == RenameStep(old(FileState()), settings, oldFilename, newFilename)
    {
      var from, to := Strip(oldFilename), Strip(newFilename);
      if from == "" || to == "" {
        return Failure(BothFilenamesRequired);
      }
      if from !in files {
        return Failure(FileNotFound);
      }
      var nameCheck := ValidateFileName(to, settings.allowedFileExtensions);
      if nameCheck.Fail? {
        return Failure(InvalidName(nameCheck.error));
      }
      if to in files {
        return Failure(NameTaken);
      }
      MoveRecord(from, to);
      r := Success((from, to));
    }

    /** `student_files[to] = student_files[from]`, `del student_files[from]`, and the active file follows. */
    method MoveRecord(from: string, to: string)
      requires Valid() && from in files && to !in files
      modifies this
      ensures Valid() && GradeState() == old(GradeState())
      ensures FileState() == Move(old(FileState()), from, to)
    {
      ghost var p := FileState();
      MoveKeepsWellFormed(p, from, to);
      var record := files[from];
      files, order := files[to := record] - {from}, Without(order + [to], from);
      if activeFile == from {
        activeFile := to;
      }
      assert FileState() == Move(p, from, to);
    }

    /**
     * `submit_solution`: grades every test case against its run, appends one
     * submission holding the results, the raw total and a copy of the
     * project, adds one to the count, makes the total the current score and
     * raises the best score to it when it is higher. A run with a `null`
     * output makes the handler fail before any of this, leaving the state as
     * it was.
     */
    method SubmitSolution(outcomes: seq<RunOutcome>, submissionId: string, timestamp: string)
      returns (r: SubmitResponse)
      requires Valid()
      requires |outcomes| == |settings.testCases|
      modifies this
      ensures Valid() && FileState() == old(FileState())
      ensures Grade(settings.testCases, outcomes).None? ==>
                r == SubmitFailed(InternalError) && GradeState() == old(GradeState())
      ensures Grade(settings.testCases, outcomes).Some? ==>
                var results := Grade(settings.testCases, outcomes).value;
                var total := PassedPoints(settings.testCases, outcomes);
                && r == Submitted(total, settings.maxScore, results, submissionId)
                && submissions == old(submissions) + [Submission(submissionId, timestamp, results, total, old(order), old(files))]
                && submissionCount == old(submissionCount) + 1
                && currentScore == total
                && bestScore == Max(old(bestScore), total)
      ensures bestScore >= old(bestScore)
    {
      var graded, totalScore := GradeTests(settings.testCases, outcomes);
      if graded.None? {
        return SubmitFailed(InternalError);
      }
      var submission := Submission(submissionId, timestamp, graded.value, totalScore, order, files);
      ghost var before := submissions;
      submissions := submissions + [submission];
      assert Totals(submissions)[..|before|] == Totals(before);
      submissionCount := submissionCount + 1;
      currentScore := totalScore;
      if totalScore > bestScore {
        bestScore := totalScore;
      }
      r := Submitted(totalScore, settings.maxScore, graded.value, submissionId);
    }
  }
}
