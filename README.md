# Voice2Code project store and text helpers, modelled in Dafny

Voice2Code is a Flask web application that turns spoken or typed requests into
generated source code. Around the generated code it keeps a small in-memory
project store in three process-wide globals:

- `projects` maps each project id to a project (name, language, files, creation time, readme);
- `code_history` maps an id to an append-only log of file additions;
- `current_project_id` points at the most recently created project.

Four routes act on them: `create_project`, `add_file` (which makes up a file
name when none is given), `get_history` and `rollback`. Next to the store sit
three pure text helpers:

- `get_file_extension` maps a language to a file suffix;
- `format_code_by_language` re-indents Python, breaks JavaScript into lines and tidies everything else;
- the fence clean-up removes a Markdown code fence from generated code.

The model has one module per concern:

- `Results`: `Option` and `Result`, this model's form of the routes' `success`/`error` answers.
- `Text`: models Python's `split`, `join`, `strip`, `startswith`/`endswith` and `str(n)`. Split and join are proved to be inverses, and printing a number is proved to be undone by parsing it.
- `Extensions`: the language-to-suffix table.
- `Naming`: the auto-naming `while` loop as a method. It is proved to stop and to return the first free name in the order `main<ext>`, `file1<ext>`, `file2<ext>`, …
- `Fences`: the fence clean-up. The source has two copies of it, app.py:73-75 in `generate_code` and app.py:118-120 in `modify_code`, and the one function `StripFence` models both.
- `Formatting`: the three formatter branches. The Python branch is a method with a loop, proved equal to a line-by-line specification function; lemmas about that function give the properties.
- `ProjectStore`: a `Store` class whose fields `projects`, `history` and `current` are the three globals. `create_project`, `add_file` and `rollback` are methods whose `ensures` give the whole new state. `get_history` is a `reads this` function, so it cannot change the store. The object invariant `Valid()` is kept by every route: only existing projects have logs, the current project exists, every log entry is an `add_file`, and every stored file content is a content the log recorded for that name. `Session` goes through a short run: create a project, add two unnamed files, read the history, roll back.

Clock readings (`datetime.now()`) are parameters: the creation stamp
(`%Y%m%d_%H%M%S`), the ISO creation time, and the two separate readings that
`add_file` takes, one for the file and one for the log entry. A JSON key that is
left out of the request is `None`. The default values the routes fill in
(`'Untitled Project'`, `'python'`, `''`, `-1`) are the caller's to pass.

The model follows the code as written, including these behaviours a reader might not expect:

- the automatic file name uses the language of the request, not the project's language;
- rollback fails with `No history found` only when the project has no log key at all, and an empty log gets `Invalid version`;
- errors are the source's plain strings (`Invalid project`, `No history found`, `Invalid version`), not a typed error set;
- creating a project under an id that already exists replaces the project, but its old log entries stay.

Two behaviours of the Python formatter are reproduced as written, not corrected:

- `else:`, `except:` and `finally:` end in a colon. The colon test comes first, so they are indented at the current level and they deepen it. Only the bare line `elif` reaches the dedent branch (`FormatPyLineCases`, `ElseIsNotDedented`).
- A bare `elif` at level 0 leaves the level at 1.

## Model

| member | source | states |
|---|---|---|
| `ProjectStore.Store.constructor` | app.py:33-36 | At start there are no projects, no logs and no current project, and the store invariant holds. |
| `ProjectStore.Store.CreateProject` | app.py:441-467 | The id is `project_` + the second stamp. The new project has the given name and language, no files and an empty readme, and is stored under that id, replacing any project created in the same second. It becomes current. The logs are unchanged and the invariant is kept. |
| `ProjectStore.ProjectId` | app.py:448 | A project's id: `project_` followed by the creation stamp. `ProjectStore.ProjectIdInjective` and `ProjectStore.Store.CreateProject` state its properties. |
| `ProjectStore.ProjectIdInjective` | app.py:448 | Creations with different second stamps get different ids. |
| `ProjectStore.Resolve` | app.py:473 | `data.get('project_id', current_project_id)`: the requested id when the request has the key, otherwise the current project. `rollback` uses the same lookup at app.py:583. `ProjectStore.Store.AddFile` and `ProjectStore.Store.Rollback` state its properties. |
| `ProjectStore.IsTarget` | app.py:478 | The negation of `add_file`'s guard `not project_id or project_id not in projects`: the id is present, non-empty and names a project. `ProjectStore.Store.AddFile` states that the route succeeds exactly when it holds. |
| `ProjectStore.Store.AddFile` | app.py:469-513 | The id is the requested one when the key is present, otherwise the current one. It succeeds exactly when that id is non-empty and names a project. On failure it answers `Invalid project` and changes nothing. On success: a given file name is used as is; with none, the name is not already a file and is the first free automatic name for the request's language. Exactly that name of that project's files is set to the new record. Exactly one `add_file` entry with that name and content is appended to that project's log, which is created if missing. The current project and everything else stay unchanged, and the answer carries the updated project. |
| `ProjectStore.Store.GetHistory` | app.py:568-577 | For a project with no log the answer is empty. Otherwise it is the suffix of the log of length min(10, log length), so the latest entries in their logged order. Being a function, it changes nothing. |
| `ProjectStore.Store.Rollback` | app.py:579-608 | With no log for the resolved id it answers `No history found`. With an index below 0 or at least the log length it answers `Invalid version`. Neither error changes anything. Otherwise it answers with entry `i`'s content and file name. It overwrites only that file's `content`, and only if the project exists and still has that file; else the store is unchanged. The log, the current project, the file's other fields and all other files stay as they were. |
| `Extensions.FileExtension` | app.py:414-439 | The suffix starts with a dot, has at least two characters and no line break. It is `.txt` exactly for the languages the table does not list. |
| `Naming.Candidate` | app.py:483-486 | The name tried in round n: `main<ext>` in round 0, `file<n><ext>` after that. `Naming.CandidateInjective` and `Naming.AutoName` state its properties. |
| `Naming.AutoName` | app.py:481-488 | The search loop stops. Its name is not among the taken names. The name is the candidate of the first round whose candidate is free: `main<ext>`, then `file1<ext>`, `file2<ext>`, …, with `ext` taken from the given language. |
| `Naming.CandidateInjective` | app.py:483-486 | Different rounds of the search try different names, so the loop never tries a name twice. |
| `Naming.FirstFreeUnique` | app.py:481-488 | Only one round can be the first free one, so the generated name is determined by the taken names and the language. |
| `ProjectStore.Store.Valid` | app.py:33-36 | The invariant every route keeps: only projects have logs, the current project exists, logs hold only `add_file` entries, and every stored file content was logged for that file name (files are written only at app.py:490-494, together with a log entry at 497-504, and at 598-599, with a content taken from the log). |
| `ProjectStore.Session` | app.py:441-608 | A run through the routes: two unnamed Python files get the names `main.py` and `file1.py`, the history shows both entries in order, and rolling back to entry 0 answers with the first content and `main.py`. The facts are asserted in the body; the method has no inputs and no outputs. |
| `Text.IsSpace` | app.py:367 | The characters Python's `str.isspace` accepts, which `strip()` removes. `Text.TrimStartFacts`, `Text.TrimEndFacts` and `Text.StripFacts` state what stripping does with them. |
| `Text.StartsWith` | app.py:73 | `str.startswith`, used for the fence test. `Fences.StripFence` states its role. |
| `Text.EndsWith` | app.py:372 | `str.endswith`, used for the colon test. `Formatting.FormatPyLineCases` states its role. |
| `Text.Split` | app.py:362 | `split('\n')` gives at least one piece, and no piece contains the separator. |
| `Text.Join` | app.py:75 | `'\n'.join(lines)`. Its properties are stated by `Text.JoinSplit` and `Text.SplitJoin`: it is the inverse of `Split`. |
| `Text.JoinSplit` | app.py:74-75 | Joining the pieces of a split with the same separator gives back the original text. |
| `Text.SplitJoin` | app.py:382 | Splitting the join of one or more pieces that contain no separator gives back exactly those pieces. |
| `Text.TrimStart` | app.py:367 | `lstrip()`. Its properties are stated by `Text.TrimStartFacts`. |
| `Text.TrimEnd` | app.py:367 | `rstrip()`. Its properties are stated by `Text.TrimEndFacts`. |
| `Text.Strip` | app.py:367 | `strip()`, as `rstrip` after `lstrip`. Its properties are stated by `Text.StripFacts` and `Text.StripIdempotent`. |
| `Text.TrimStartFacts` | app.py:367 | `lstrip` drops only whitespace, keeps a suffix of the text, and what it keeps does not start with whitespace. |
| `Text.TrimEndFacts` | app.py:367 | `rstrip` drops only whitespace, keeps a prefix of the text, and what it keeps does not end with whitespace. |
| `Text.StripFacts` | app.py:367-368 | A stripped line is empty exactly when the line is all whitespace. Otherwise it starts and ends with a non-space character. It contains no character the line does not. |
| `Text.StripIdempotent` | app.py:390 | Stripping a stripped line changes nothing. |
| `Text.NatToString` | app.py:486 | `str(counter)` is a non-empty string of decimal digits, with no leading zero unless the counter is 0. |
| `Text.ParseNatToString` | app.py:486 | Reading back the decimal text of a counter gives the counter. |
| `Text.NatToStringInjective` | app.py:486 | Different counters give different decimal texts. |
| `Fences.StripFence` | app.py:73-75 | Text that does not start with three backticks is returned unchanged. |
| `Fences.WrappedBodyRecovered` | app.py:118-120 | For any body, a reply made of an opening fence line (three backticks and an info string), the body and a closing line cleans up to exactly that body. |
| `Fences.ShortFencedReplyEmpties` | app.py:73-75 | A fenced reply of at most two lines cleans up to the empty text: only an opening line, or an opening line right before a closing line. |
| `Formatting.Indent` | app.py:373 | `'    ' * indent_level`: four spaces per level, used at app.py:373, 377 and 380. `Formatting.FormatPyLineCases` and `Formatting.FormatPyLineNoBreaks` state its role. |
| `Formatting.FormatPyLine` | app.py:366-380 | One step of the line loop. Its cases are stated by `Formatting.FormatPyLineCases`. |
| `Formatting.FormatPyLines` | app.py:362-381 | The formatter's line loop gives exactly one output line per input line. |
| `Formatting.FormatPyLineCases` | app.py:367-380 | A blank line becomes `''` and keeps the level. Any other line becomes 4k spaces and its stripped text. k is the current level, except for the bare line `elif`, which is written one level out and never below 0. The level goes up by one after a line ending in `:`. After `elif` it is the old level, or 1 when that was 0. Any other line leaves it alone. |
| `Formatting.ElseIsNotDedented` | app.py:372-378 | At level 1, `else:` is written with four spaces and raises the level to 2. The dedent branch never sees it. |
| `Formatting.FormatPyLinesAt` | app.py:366-380 | Output line `i` is input line `i` formatted at the level that lines `0..i-1` leave. |
| `Formatting.FormatPyLineNoBreaks` | app.py:367-380 | Formatting a line without line breaks adds only spaces in front of its stripped text, so the result has no line break either. |
| `Formatting.FormatPyLinesNoBreaks` | app.py:373-380 | When no input line contains a line break, no output line of the Python branch contains one. |
| `Formatting.PythonFormatted` | app.py:360-382 | The Python branch as a function of the code: the formatted lines joined with `\n`. Its properties are stated by `Formatting.PythonFormattedLines`, and `Formatting.FormatPython` is proved equal to it. |
| `Formatting.PythonFormattedSplits` | app.py:373-382 | Splitting the Python branch's output on `\n` gives back exactly the formatted lines, since no formatted line contains a line break. |
| `Formatting.LevelStep` | app.py:366-380 | The level in force after line `i` is the level that formatting line `i` leaves, starting from the level in force before it. |
| `Formatting.PythonFormattedLines` | app.py:359-382 | Splitting the Python branch's output on `\n` gives exactly as many lines as the input has. Output line `i` is input line `i` formatted at the level in force there. The level starts at 0 and each line moves it as `FormatPyLineCases` says. |
| `Formatting.FormatPython` | app.py:360-382 | The loop with its running `indent_level` produces what the line-by-line specification prescribes. |
| `Formatting.ReplaceChar` | app.py:386 | `str.replace` with a one-character pattern. Its properties are stated by `Formatting.ReplaceCharSingle`, `Formatting.ReplaceCharConcat` and `Formatting.ReplaceCharOnlyAddsBreaks`. |
| `Formatting.ReplaceCharSingle` | app.py:386 | One character becomes the replacement when it is the pattern and stays as it is otherwise. |
| `Formatting.ReplaceCharConcat` | app.py:386 | Replacing in a concatenation is replacing in each part and concatenating the results. |
| `Formatting.FormatJavaScript` | app.py:384-386 | The JavaScript branch, three `replace` calls in the source's order. Its properties are stated by `Formatting.FormatJavaScriptConcat`, `Formatting.FormatJavaScriptChar` and `Formatting.JavaScriptOnlyAddsBreaks`. |
| `Formatting.FormatJavaScriptConcat` | app.py:384-386 | The JavaScript branch formats a concatenation piece by piece, so together with `Formatting.FormatJavaScriptChar` it determines the output of every input. |
| `Formatting.FormatJavaScriptChar` | app.py:386 | `;` becomes `;` and a line break, `{` becomes `{` and a line break, `}` becomes a line break and `}`, and every other character, a line break included, stays as it is. A break inserted by one replace is never touched by a later one. |
| `Formatting.WithoutBreaks` | app.py:386 | Taking the line breaks out of a text leaves no line break. |
| `Formatting.ReplaceCharOnlyAddsBreaks` | app.py:386 | Replacing every occurrence of a character by that character padded with line breaks changes the text only in its line breaks. |
| `Formatting.JavaScriptOnlyAddsBreaks` | app.py:384-386 | The JavaScript branch changes nothing but line breaks: with all line breaks removed, input and output are equal. Where it puts them is stated by `Formatting.FormatJavaScriptChar`. |
| `Formatting.NonBlankStripped` | app.py:390 | The kept lines are no more than the input lines. Each is non-blank and already stripped, and none contains a line break if no input line does. |
| `Formatting.NonBlankStrippedConcat` | app.py:390 | The filter works line by line: filtering a concatenation of line lists concatenates the filtered parts. |
| `Formatting.NonBlankStrippedLine` | app.py:390 | A single line is dropped when it strips to nothing and is kept in stripped form otherwise. |
| `Formatting.NonBlankStrippedMembers` | app.py:390 | Every input line that is not blank is kept in stripped form, and every kept line is the stripped form of some input line. |
| `Formatting.CleanUp` | app.py:388-390 | The fallback branch: the non-blank stripped lines joined with `\n`. Its properties are stated by `Formatting.CleanUpLines` and `Formatting.CleanUpIdempotent`. |
| `Formatting.CleanUpLines` | app.py:388-390 | The output of the fallback branch splits into exactly the non-blank input lines, stripped, in their order. When there are no such lines the output is empty. |
| `Formatting.CleanUpIdempotent` | app.py:388-390 | Running the fallback branch on its own output changes nothing. |
| `Formatting.FormatCode` | app.py:359-390 | The `python` tag selects the Python branch and `javascript` the JavaScript branch. Every other tag selects the strip-and-drop-blank-lines branch. |

## Left out

- Flask routing, `request.json`, `jsonify` and `send_file`: HTTP plumbing. Each route is modelled only by the change of state it makes and the answer it gives.
- A request that sends `project_id` as JSON `null`, or a non-string id, is not modelled. A `version_index` that is not an integer is not modelled either. In the source these reach `not project_id`, the membership tests, or a `TypeError` caught by the route's `except`. The model's request id is either absent or a string, and the index is an integer.
- The catch-all `except Exception` of each route: nothing in the modelled code can raise for the inputs the model admits.
- Every call to the generative-AI service (`generate_code`, `modify_code`, `generate_description`, `create_multi_file_project`, `analyze_code_for_debugging`, `explain_code`, `detect_bugs`): these are prompt strings sent to a foreign service. Only the fence clean-up applied to the reply is modelled.
- Speech recognition, translation, temporary files and text-to-speech (`process_audio`, `generate_audio_explanation`): foreign libraries and file I/O.
- `execute_python_code`, which runs arbitrary code with `exec`, and the `execute_java_code`/`execute_cpp_code` stubs.
- `export_project`: zip I/O, and it refers to names that are never defined, so it cannot run as written.
- `voice_command`: keyword dispatch by regular expressions, and its `run` path calls a function that does not exist.
- `generate_readme` and `generate_project_structure`: template strings built with `str.title()`.
- script.js (browser UI) and config.py (environment settings and constant tables) are not part of this model.
- `datetime.now()`: its readings are opaque strings passed as parameters, so the model says nothing about their format or order.
- Concurrent requests on the shared globals: the source has no locking, and the model runs one route at a time.
- `Text.IsSpace` lists the code points Python's `str.isspace` accepts. Other Unicode details of `str.strip` are not modelled.

