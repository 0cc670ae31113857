# prohibit, modelled in Dafny

`prohibit` is a command-line linter. It reads a JSON configuration with three parts:

- an **overrule** marker string;
- a list of **global** regular expressions;
- a list of **specific** groups, each with directory or file targets and its own extra patterns.

For every group, it walks each target (honouring ignore files) and opens every regular file. It tests each line against the group's matcher list: the group's own patterns first, then the global ones. A line that matches a pattern, and does not contain the overrule marker, is a prohibited value. The run passes only when no group reports a prohibited value or a walk error.

This project models the checking core of `src/main.rs` in five modules:

| file | module | models |
|---|---|---|
| `text.dfy` | `Text` | substring containment (`line.contains(overrule)`) |
| `patterns.dfy` | `Patterns` | `make_patterns`: compiling rule strings, skipping the invalid ones |
| `line_scanner.dfy` | `LineScanner` | `ProhibitedResult` and `check_file`: scanning one walk entry line by line |
| `groups.dfy` | `Groups` | `check_specific`: building the effective matcher list, walking targets, reporting |
| `prohibit.dfy` | `Prohibit` | the `pass &=` fold over all groups in `main` |

The code changes state step by step: it pushes onto vectors, counts lines and folds a flag. So `MakePatterns`, `CheckFile`, `ResolveRuleSet`, `CheckSpecific` and `CheckConfiguration` are methods with loops.

Each method is proved equal to a recursive specification function:

| method | specification function |
|---|---|
| `MakePatterns` | `Compiled` |
| `CheckFile` | `ExpectedResults` |
| `CheckSpecific` | `GroupReport` |
| `CheckConfiguration` | `RunReport` |

The properties the tool promises are then proved about those functions.

Parts the core cannot see are parameters:

- The regex library is a `RegexEngine`. It holds two functions:
  - `compiles` says whether a pattern string is valid;
  - `isMatch` says whether a pattern matches a line.
- The directory walk is a function `walk` from a target string to a sequence of `WalkItem`s. Each item is either an entry or a walk error.
- A walk entry (`Entry`) carries three things:
  - its path;
  - its file type, if known;
  - if the file opened, the sequence of line reads, each either a line or a failed read.

The model keeps what the program writes to the console as data, a sequence of `Diagnostic`s:

- one `Violation` per prohibited line and pattern;
- one `WalkFailure` per walk error.

Keeping the output as data makes two behaviours of the code provable. A walk error does not stop the walk. Every group is checked even after one has failed.

## Model

| member | source | states |
|---|---|---|
| Text.Contains | src/main.rs:65 | `line.contains(marker)` holds exactly when the marker occurs at some position of the line. |
| Patterns.Compiled | src/main.rs:31-44 | Compiling a list never yields more matchers than there are rule strings. |
| Patterns.MakePatterns | src/main.rs:31-44 | The loop returns the compiled matchers of every rule string, in order, as specified by `Compiled`. |
| Patterns.CompiledAppend | src/main.rs:33-42 | Each rule string is compiled on its own: compiling `a + b` gives the matchers of `a` followed by those of `b`. |
| Patterns.InvalidPatternSkipped | src/main.rs:34-41 | A rule string that fails to compile is dropped without affecting its neighbours: the result is as if it were absent. |
| Patterns.CompiledKeepsOrder | src/main.rs:31-44 | The result is exactly the compiling rule strings in their original relative order. Every compiling string appears, through a strictly increasing index selection. |
| LineScanner.Flatten | src/main.rs:63 | `lines().flatten()` yields no more lines than there were read attempts. |
| LineScanner.LineNumbersCountReadLines | src/main.rs:62-73 | A failed line read is skipped and does not advance the line counter. A successfully read line gets the number one past the count of lines read before it. |
| LineScanner.CheckFile | src/main.rs:52-78 | Scanning an entry yields the records specified by `ExpectedResults`. There are no records for a non-regular file, an entry of unknown type, or a file that cannot be opened. |
| LineScanner.FileResultsFollowHits | src/main.rs:63-74 | There is exactly one record per (line, matcher) pair where the matcher matches a line lacking the overrule marker. Nothing stops early. Records are ordered by line, then by matcher-list order. |
| LineScanner.ResultsDescribeHits | src/main.rs:62-73 | Each record has a line number in 1..number of lines and carries that line's text. Its pattern is the source of a matcher that matches the line. The line does not contain the marker. Line numbers never decrease. |
| LineScanner.OverruledLinesExempt | src/main.rs:65 | No record names a line that contains the overrule marker. |
| LineScanner.EmptyOverruleExemptsAll | src/main.rs:65 | An empty overrule marker occurs in every line, so it suppresses every record. |
| Groups.ResolveRuleSet | src/main.rs:81-85 | The effective matcher list is the group's own compiled patterns followed by all common matchers. |
| Groups.GroupPassesIffItemsClean | src/main.rs:87-119 | A group passes exactly when every item of every target's walk is an entry with no records. |
| Groups.WalkErrorDoesNotStop | src/main.rs:91-117 | A walk error adds one failure diagnostic and the walk goes on: the items after it are reported as if it were absent. |
| Groups.ReportEmptyIffClean | src/main.rs:93-116 | A group's report is empty exactly when every walked item is an entry whose scan yields no record. |
| Groups.CheckSpecific | src/main.rs:80-120 | The returned flag is true exactly when the group passes, and exactly when nothing was reported. The report is every record of every entry plus one failure per walk error, in walk order. |
| Prohibit.CheckConfiguration | src/main.rs:141-149 | The global patterns are compiled once and shared. The run passes exactly when every group passes, and exactly when nothing was reported. Every group's report appears, in order. |
| Prohibit.GroupsAreIndependent | src/main.rs:146-149 | Groups are checked independently. A group's report does not depend on its neighbours, and a failing group does not stop later ones. |

## Left out

- Command-line parsing (`Args`, the default configuration path) is not part of this model. It is argument handling only.
- Loading the configuration is not part of this model: opening the file, deserializing the JSON, and the "Invalid configuration." message. A `Configuration` value is given directly.
- The process exit codes and the final "Check failed." message are left out. The run's outcome is the `pass` result of `CheckConfiguration`.
- Regular-expression syntax and matching are left to the `RegexEngine` parameter. Only the interface of the regex library is used.
- Directory walking and ignore-file handling are left to the `walk` parameter, and so are the walk's error details. A walk error is a bare `WalkError`.
- Opening files and buffered reading are left to the entry's `contents`. A file that fails to open has no contents, and each line read either succeeds or fails.
- CheckFile: the program's `line_number` is a `u32`. The model counts with an unbounded `nat`, so it does not model wrap-around on a file with more than 2^32 - 1 lines.
- CheckFile: if a line read fails forever, `lines().flatten()` never ends. The model gives a finite sequence of reads, so it cannot express that non-termination.
- Console text formatting is left out, and so is the stderr line "File check failed on ...". A `Violation` keeps the entry path and the record, which is what each stdout message shows.
- Non-UTF-8 paths, which the program prints as a placeholder, are left out. Paths are strings.
- The error message printed for a pattern that fails to compile is left out. Only its effect is kept: the pattern is skipped.
- No record type carries the file path, because the program's `ProhibitedResult` does not: the path is attached when a `Violation` is reported.
