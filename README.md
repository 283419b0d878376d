# Advanced Coding block: a Dafny model

This project models the server-side core of the Open edX "Advanced Coding"
XBlock (`advanced_coding/__init__.py`). The block gives a learner a small
multi-file project. It is an insertion-ordered dictionary `student_files`
from filename to a record (content, language, two timestamps), plus the
`active_file` and the `current_language`. JSON handlers let the learner
save, delete and rename files. `submit_solution` runs every author-defined
test case, compares the stripped outputs, sums the points of the passing
tests and updates the learner's grade state. That state is the submission
log, `submission_count`, `current_score` and `best_score`.

The model has five modules:

- `Wrappers` (`wrappers.dfy`): `Option` and `Result`.
- `Text` (`text.dfy`): the `str` operations the block relies on. These are
  `strip()` with Python's exact whitespace set, `lower()`, `in`, `lstrip(c)`
  and the last-occurrence search behind `rsplit('.', 1)`.
- `Validation` (`validation.dfy`): `validate_file_name` and
  `validate_file_content`, returning the first failing check in source
  order.
- `Grading` (`grading.dfy`): the loop of `submit_solution` over the test
  cases. It is a function `Grade` with its properties and a method
  `GradeTests` with loop invariants, proved against `Grade`.
- `AdvancedCoding` (`block.dfy`): the settings, the class
  `AdvancedCodingBlock` whose fields are the learner's state, and the
  handlers as methods.

Each file handler is proved against a pure step function on a `Project`
value: `SaveStep`, `DeleteStep` and `RenameStep`. The dictionary updates are
`Put`, `Remove` and `Move`, and the lemmas about them state the effect and
the preserved invariants. The class invariant `Valid()` has three parts.
The key list has no repeats and lists exactly the keys of `files`. The
active file is one of the files, so the project is never empty. The grade
fields agree with the submission log: the count is its length, the current
score is the last total and the best score is the running maximum from 0.
`Consistent()` is `Valid()` without the active-file part. It is what
`_initialize_student_files` needs before it runs, since that method is
the one that seeds an empty project.

Where the code and the block's documentation or tests disagree, the model
follows the code:

- `total_score` is the raw sum of points and is never scaled to `max_score`.
- `save_file` never changes the active file, because its "new file" test
  runs after the insert.
- There is no check for `..` in names, so `test..py` is accepted.
- There is no length limit on names, and extensions are compared
  case-sensitively.
- The size limit counts characters (`len(content)`), not bytes.
- Content is never sanitised.
- `import os` is rejected, even though a repository test expects it to be
  accepted.
- The size error reads "File content exceeds maximum size (N bytes)".

## Model

| member | source | states |
|---|---|---|
| Text.Lower | advanced_coding/__init__.py:627 | `content.lower()` keeps the length, turns each of `A`–`Z` into its lower-case letter, keeps every other character, and leaves no upper-case ASCII letter |
| Text.Contains | advanced_coding/__init__.py:629 | `pattern in content_lower`: the empty string and the string itself occur, and nothing longer than the string does |
| Text.StripStart | advanced_coding/__init__.py:338 | `lstrip()` removes a prefix made only of whitespace, and what remains does not start with whitespace |
| Text.StripEnd | advanced_coding/__init__.py:338 | `rstrip()` removes a suffix made only of whitespace, and what remains does not end with whitespace |
| Text.Strip | advanced_coding/__init__.py:545-546 | `strip()` returns a slice of its input cut only at whitespace, with no whitespace at either end |
| Text.StripIgnoresPadding | advanced_coding/__init__.py:545-547 | whitespace added around an output never changes its stripped form, so the test verdict ignores padding |
| Text.LStrip | advanced_coding/__init__.py:601 | `ext.lstrip('.')` removes exactly the leading dots |
| Text.LastIndexOf | advanced_coding/__init__.py:597 | the split point of `rsplit('.', 1)` is the last `.`: none if there is no `.`, otherwise a `.` with no `.` after it |
| Validation.AllowedSuffixes | advanced_coding/__init__.py:601 | one entry per configured extension, in order, each that extension with exactly its leading dots removed |
| Validation.HasInvalidChar | advanced_coding/__init__.py:604-606 | true iff some character of the name is one of `< > : " \| ? * \ /` |
| Validation.ValidateFileName | advanced_coding/__init__.py:589-609 | the checks in source order, each as an iff: empty name; no `.`; the last `.` is the first character ("cannot start with a dot"); otherwise the part after the last `.` is not an allowed extension (reported with that part); otherwise an invalid character; otherwise a pass |
| Validation.AfterLastDotDecides | advanced_coding/__init__.py:597-609 | the checks after the split at the last `.` never report an empty name or a missing extension, and decide the three remaining checks as stated for `ValidateFileName` |
| Validation.AcceptedNameIsAcceptable | advanced_coding/__init__.py:589-609 | a name that passes has a last `.` after some character, an allowed extension after it and no invalid character |
| Validation.AcceptableNameIsAccepted | advanced_coding/__init__.py:589-609 | a name with a last `.` after some character, an allowed extension and no invalid character passes |
| Validation.NameAcceptedIff | advanced_coding/__init__.py:589-609 | a name passes iff there is a last `.` with a character before it and an allowed extension after it, and no character is one of `< > : " \| ? * \ /` |
| Validation.SeparatorRejected | advanced_coding/__init__.py:604-607 | a name that contains `/` or `\` is never accepted, whatever extensions are configured |
| Validation.TraversalNamesRejected | tests/test_advanced_coding.py:330-340 | the three path-traversal names of the repository's test are rejected under every extension setting |
| Validation.DoubleDotAccepted | advanced_coding/__init__.py:597-601 | there is no `..` check: `test..py` passes with the default extensions |
| Validation.FirstOccurring | advanced_coding/__init__.py:628-630 | the scan returns None iff no pattern occurs; otherwise it returns the first pattern, in list order, that occurs |
| Validation.ValidateFileContent | advanced_coding/__init__.py:611-632 | the result is "too large" iff the length exceeds the limit; a reported pattern is the first listed pattern, in list order, that occurs in the lower-cased content |
| Validation.ContentAcceptedIff | advanced_coding/__init__.py:611-632 | content passes iff it fits the limit and no listed pattern occurs in its lower-cased form |
| Validation.EmptyContentAccepted | advanced_coding/__init__.py:616-632 | empty content passes under any non-negative limit |
| Validation.OversizeContentRejected | advanced_coding/__init__.py:616-617 | content one character over the limit is rejected as too large |
| Validation.ImportOsRejected | advanced_coding/__init__.py:620-630 | the repository test's snippet holding `import os` is rejected by the content check, since `import os` is the first listed pattern |
| Grading.Evaluate | advanced_coding/__init__.py:534-559 | a test step raises iff the run's output is `null`; otherwise the recorded result carries the test id, and it is passed (and earns the test's points, else 0) iff the stripped outputs are equal |
| Grading.Grade | advanced_coding/__init__.py:527-559 | a completed loop records exactly one result per test case |
| Grading.GradePrefixNone | advanced_coding/__init__.py:529-559 | once an iteration has raised, the whole loop raises |
| Grading.GradeShape | advanced_coding/__init__.py:529-559 | grading completes iff no run returned a `null` output; it then records one result per test, in order, each that test's evaluation |
| Grading.TotalIsPassedPoints | advanced_coding/__init__.py:548-549 | `total_score` equals the sum of the points of the tests that pass |
| Grading.PassedPointsBounds | advanced_coding/__init__.py:548-549 | with non-negative points, the score lies between 0 and the sum of all points |
| Grading.AllPassedScoresSum | advanced_coding/__init__.py:548-549 | if every test passes, the score is the sum of the points, not `max_score` |
| Grading.NonePassedScoresZero | advanced_coding/__init__.py:548-549 | if no test passes, the score is 0 |
| Grading.TotalBounds | advanced_coding/__init__.py:524-560 | a completed pass has a `total_score` between 0 and the sum of points when no points are negative |
| Grading.GradeTests | advanced_coding/__init__.py:524-560 | the loop returns `Grade`'s result (None if a `null` output raised), and `total_score` equals the sum of the recorded points and of the passing tests' points |
| Grading.SampleTestScores | advanced_coding/__init__.py:104-120 | the default test (`5 3` should print `8`, 10 points) earns 10 for output `8\n` and 0 for `9`, recording the stripped strings |
| Grading.SamplePasses | advanced_coding/__init__.py:104-120 | the default test earns its 10 points for the output `8\n`, recording `8` as both expected and actual |
| Grading.SampleFails | advanced_coding/__init__.py:104-120 | the default test earns 0 for the output `9`, recording `8` as expected and `9` as actual |
| Grading.GradeCompared | advanced_coding/__init__.py:544-559 | grading one test on a non-null output records the comparison of the stripped expected and actual strings |
| Grading.BestAfter | advanced_coding/__init__.py:574-575 | the best score after a run of totals is at least its start and at least the latest total |
| Grading.BestAfterBounds | advanced_coding/__init__.py:574-575 | the best score is at least its start and every total seen, and it equals one of them |
| Grading.BestNeverDecreases | advanced_coding/__init__.py:574-575 | more submissions never lower the best score |
| AdvancedCoding.Without | advanced_coding/__init__.py:392-397 | the key list after `del` holds exactly the other keys; it is unchanged when the key is absent; without repeats it stays without repeats, is one shorter, and its first key is the old first key, or the second when the first was removed |
| AdvancedCoding.WithoutKeepsPlaces | advanced_coding/__init__.py:392 | on a key list without repeats, `del` cuts the key out at its position and every other key keeps its place |
| AdvancedCoding.StarterLanguage | advanced_coding/__init__.py:242 | `default_language or 'python'`: never empty, and the configured default language whenever that is non-empty |
| AdvancedCoding.StarterName | advanced_coding/__init__.py:243-252 | the starter file's name is `main.` followed by `py` or by the extension of a configured language |
| AdvancedCoding.StarterTemplate | advanced_coding/__init__.py:243-246 | the starter content is `# Write your code here` or the template of a configured language |
| AdvancedCoding.DefaultStarterIsMainPy | advanced_coding/__init__.py:239-256 | with the default settings the starter file is `main.py`, a Python file holding the Python template |
| AdvancedCoding.Put | advanced_coding/__init__.py:357-362 | after `student_files[name] = record` the name holds the record, and the active file and language are unchanged |
| AdvancedCoding.PutEffect | advanced_coding/__init__.py:357-362 | setting an entry changes only that entry; the count grows by one iff the name is new; the key list stays duplicate-free and complete |
| AdvancedCoding.Remove | advanced_coding/__init__.py:392-397 | the removal drops exactly the name's key, keeps every other record, and the active file is no longer the removed name |
| AdvancedCoding.RemoveEffect | advanced_coding/__init__.py:392-397 | removing a file drops exactly its key, leaves at least one file, and only when it was active re-points the active file and language to the first remaining key |
| AdvancedCoding.RemoveKeepsWellFormed | advanced_coding/__init__.py:392-397 | after a removal the key list is still duplicate-free and complete, and the active file still names a file |
| AdvancedCoding.Move | advanced_coding/__init__.py:428-434 | a rename to a different name replaces the old key by the new one holding the old record, keeps every other record, and the active file is no longer the old name |
| AdvancedCoding.MoveEffect | advanced_coding/__init__.py:428-434 | a rename replaces the old key by the new one, keeps the record, the other entries and the count, and the active file follows it |
| AdvancedCoding.MoveKeepsWellFormed | advanced_coding/__init__.py:428-434 | after a rename the new key is listed last, the key list is still duplicate-free and complete, and the active file still names a file |
| AdvancedCoding.SaveStep | advanced_coding/__init__.py:338-369 | a failure leaves the project as it was; a success answers the stripped name, which then holds the saved content |
| AdvancedCoding.SaveDecides | advanced_coding/__init__.py:338-369 | `save_file` fails iff the name check, the content check or the quota check for a new name fails; a success answers the stripped name and stores the record with the given or current language |
| AdvancedCoding.SaveWithinQuota | advanced_coding/__init__.py:352-354 | a successful save never takes a project within the file quota beyond it |
| AdvancedCoding.SaveOutcome | advanced_coding/__init__.py:338-369 | `save_file` fails, with no change, iff the stripped name or the content is invalid or a new name meets the quota; otherwise it stores the content with the given or current language and never exceeds the quota |
| AdvancedCoding.DeleteStep | advanced_coding/__init__.py:379-399 | a failure leaves the project as it was; a success answers the stripped name and removes exactly that key |
| AdvancedCoding.DeleteRejects | advanced_coding/__init__.py:379-399 | `delete_file` fails, with no change, as "required", "not found" or "last file" exactly in those cases; a success leaves one file fewer and at least one |
| AdvancedCoding.RenameStep | advanced_coding/__init__.py:408-436 | a failure leaves the project as it was; a success answers the two stripped names, the old one an existing file, and the keys lose the old name and gain the new one, which holds the old record |
| AdvancedCoding.RenameRejects | advanced_coding/__init__.py:408-436 | `rename_file` fails, with no change, in the source's order of checks (names, existence, validity, collision); a success is the move |
| AdvancedCoding.RenameToSelfFails | advanced_coding/__init__.py:423-424 | renaming a file to its own name always fails |
| AdvancedCoding.AdvancedCodingBlock.constructor | advanced_coding/__init__.py:235-237 | a new block has no submissions, zero scores and exactly the starter file, which is active |
| AdvancedCoding.AdvancedCodingBlock.InitializeStudentFiles | advanced_coding/__init__.py:239-256 | an empty project receives exactly `main.<ext>` with the default template and language, made active, which establishes the full invariant; a non-empty project is unchanged; the grade state is untouched |
| AdvancedCoding.AdvancedCodingBlock.SaveFile | advanced_coding/__init__.py:338-369 | the response and new project are `SaveStep` of the old project; grade state unchanged; invariant kept |
| AdvancedCoding.AdvancedCodingBlock.StoreRecord | advanced_coding/__init__.py:357-362 | the project becomes `Put` of the old one; invariant kept |
| AdvancedCoding.AdvancedCodingBlock.DeleteFile | advanced_coding/__init__.py:379-399 | the response and new project are `DeleteStep` of the old project; grade state unchanged; invariant kept |
| AdvancedCoding.AdvancedCodingBlock.DropRecord | advanced_coding/__init__.py:392-397 | the project becomes `Remove` of the old one; invariant kept |
| AdvancedCoding.AdvancedCodingBlock.RenameFile | advanced_coding/__init__.py:408-436 | the response and new project are `RenameStep` of the old project; grade state unchanged; invariant kept |
| AdvancedCoding.AdvancedCodingBlock.MoveRecord | advanced_coding/__init__.py:428-434 | the project becomes `Move` of the old one; invariant kept |
| AdvancedCoding.AdvancedCodingBlock.SubmitSolution | advanced_coding/__init__.py:519-587 | a `null` output gives "Internal server error" with no change; otherwise one submission is appended with the results, the raw total and the old files, the count grows by one, the current score becomes the total, and the best score becomes the maximum of the old best and the total; the project is unchanged |

## Left out

- Rendering is not modelled: `student_view`, `studio_view`, `_editable_view`, the templates and the workbench scenarios.
- `run_code` and the Judge0 HTTP client are not modelled, including the polling sleep and the headers. `submit_solution` takes each test's run outcome as a parameter.
- `AdvancedCoding.AdvancedCodingBlock.SubmitSolution` assumes that `self.run_code(test_data)` (advanced_coding/__init__.py:534) returns the handler's dictionary answer. As written, it passes a plain dict to a method decorated with `@XBlock.json_handler`, whose wrapper expects a web request. The real call may therefore raise, and the catch-all would answer "Internal server error" for every submission. The model does not capture that failure: each run's answer is an input.
- `run_code` ignores the `language` key that `submit_solution` passes to it. This is not modelled because the outcomes are inputs.
- The clock (`datetime.now`) and `uuid4` are not modelled. The timestamps and the submission id are parameters.
- `save_file` and `_initialize_student_files` call the clock twice, so the two timestamps may differ. The model passes one `now` for both.
- Logging is not modelled.
- Each handler's catch-all `except` is modelled in one case only: a `null` stdout, where `None.strip()` raises inside `submit_solution`. Other exceptions are not modelled. These come from malformed test cases (a missing `id`) and non-string JSON values.
- `validate_file_content`'s `isinstance(content, str)` check is not modelled. Content is a string by type.
- Floating point is not modelled. `max_score` is carried as a `real` and only echoed back. Points and scores are integers, as the default test cases give them.
- `best_score` starts at 0 and is compared with integer totals.
- `Text.Lower` folds only `A`–`Z`. Python's full Unicode `lower()` can affect the pattern scan only through characters that lower to ASCII letters: U+0130 becomes `i` plus a combining dot, and U+212A becomes `k`. The dot breaks the `i` of any pattern, and no pattern contains `k`, so the verdict is the same.
- The XBlock field machinery is not modelled: scopes, persistence and defaults applied lazily. The settings are a constant of the block.
- The block never publishes a grade: `submit_solution` only updates its own fields, and `advanced_coding/__init__.py` has no `_publish_grade`, `get_student_data` or `validate` method, although tests/test_advanced_coding.py:238, 252 and 262 call them. None of these is modelled. `debug_xblock.py` and `setup.py` are not modelled either.
- `AdvancedCoding.AdvancedCodingBlock.SaveFile`: the source's branch that would make a newly saved file active is not modelled, because it can never run. It tests `filename not in self.student_files` right after inserting that filename.
