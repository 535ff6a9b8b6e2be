# minigrep — a Dafny model of the line-filter search

`minigrep` is a small command-line substring search. It takes a query and a
file name, reads the file, and prints every line of it that contains the
query. When the lookup of the `CASE_INSENSITIVE` environment variable
succeeds (the variable is set to valid Unicode), the match ignores case.

This project models the library half of the tool (`src/lib.rs`) as pure
Dafny functions:

- `search` and `search_case_insensitive` are `lines().filter(..).collect()`
  pipelines. They are modelled as `Minigrep.Search` and
  `Minigrep.SearchCaseInsensitive`. Both are built on a generic
  `Filtering.Filter` and on `Text.Lines`, `Text.Contains` and `Text.ToUpper`.
  Those three model `str::lines`, `str::contains` and `str::to_uppercase`.
- `Config::new` is modelled as `Minigrep.NewConfig`. It takes the argument
  list and one boolean: did the lookup of `CASE_INSENSITIVE` fail?
- The mode dispatch inside `run` is modelled as `Minigrep.Results`.

Files:

- `text.dfy` (module `Text`) holds line splitting, substring containment and
  upper-casing.
- `filtering.dfy` (module `Filtering`) holds `Filter`. Beside it stands an
  independent description of the result: the input read at increasing
  positions, where a position is kept exactly when its element passes the
  predicate (`KeepsExactly`, `KeptIndices`). It also has the subsequence
  relation.
- `minigrep.dfy` (module `Minigrep`) holds the two searches, the
  configuration, the dispatch and the two examples from `tests/test.rs`.

Modelling choices:

- `Lines` splits at every `'\n'` and removes one trailing `'\r'` from each
  piece. A final `'\n'` does not start an empty line, and the empty text has
  no lines.
- `Contains(s, q)` means that some index `i` has `s[i..i+|q|] == q`.
- `ToUpper` upper-cases ASCII letters one character at a time.
- Results are sequences of line contents, not borrowed slices.

## Model

| member | source | states |
|---|---|---|
| `Text.StripCr` | src/lib.rs:25 | one trailing `'\r'` is removed when present, and only that; a string without one is kept |
| `Text.Lines` | src/lib.rs:25 | the empty text, and only it, has no lines; the rest of its contract is stated by `LinesHaveNoNewline`, `LinesCons`, `LinesCrLf`, `LastLine`, `LastLineCr`, `LinesOfUnlines`, `LinesOfUnterminated` and `UnlinesOfLines` |
| `Text.IndexOfNewline` | src/lib.rs:25 | the position found is at most the length, and holds a `'\n'` when it is inside the string |
| `Text.IndexOfNewlineIsFirst` | src/lib.rs:25 | no `'\n'` comes before the position `IndexOfNewline` finds, so lines are cut at the first line feed |
| `Text.LinesHaveNoNewline` | src/lib.rs:25 | no line produced by `lines()` contains a line feed |
| `Text.LinesCons` | src/lib.rs:25 | a plain line followed by `'\n'` is split off as exactly one line, and splitting goes on with the rest |
| `Text.LinesCrLf` | src/lib.rs:25 | a plain line terminated by `"\r\n"` is split off as exactly that line, without the `'\r'`, and splitting goes on with the rest |
| `Text.LastLine` | src/lib.rs:25 | a non-empty plain line with no line feed after it is one line on its own |
| `Text.LastLineCr` | src/lib.rs:25 | an unterminated last line ending in a lone `'\r'` is one line, without the `'\r'` |
| `Text.LinesOfUnlines` | src/lib.rs:25 | round trip: terminating plain lines with `'\n'` and splitting again gives the same lines; a trailing newline adds no empty line |
| `Text.LinesOfUnterminated` | src/lib.rs:25 | an unterminated non-empty last line after terminated lines is still a line of its own |
| `Text.UnlinesOfLines` | src/lib.rs:25 | round trip: a text without `'\r'` that is empty or ends in `'\n'` is rebuilt exactly from its lines |
| `Text.Contains` | src/lib.rs:26 | a string contains only queries no longer than itself; the rest of its contract is stated by `ContainsEmpty` and `ContainsToUpper` |
| `Text.ContainsEmpty` | src/lib.rs:26 | every line contains the empty query |
| `Text.ToUpper` | src/lib.rs:32 | upper-casing keeps the length; `ToUpperChars` says which character each position becomes, and `ToUpperEqual` that it identifies exactly the strings equal up to ASCII letter case |
| `Text.ToUpperChars` | src/lib.rs:32 | each ASCII lower-case letter becomes the upper-case letter 32 code points below it, so none remains, and every other character is kept as it is |
| `Text.ToUpperEqual` | src/lib.rs:32 | two strings have the same upper-cased form exactly when they are equal with ASCII letter case ignored |
| `Text.ContainsToUpper` | src/lib.rs:32 | if a line contains the query, the upper-cased line contains the upper-cased query |
| `Text.ToUpperIdempotent` | src/lib.rs:32 | upper-casing twice is the same as upper-casing once |
| `Filtering.Filter` | src/lib.rs:26-27 | the collected result is no longer than the input; `FilterSelectsKeptIndices` and `FilterKeepsExactly` pin it down as exactly the passing elements, in order |
| `Filtering.FilterMembership` | src/lib.rs:26-27 | an element is in the collected result exactly when it is in the input and passes the filter |
| `Filtering.FilterSelectsKeptIndices` | src/lib.rs:25-27 | the collected result is the input read at strictly increasing positions, and a position is kept exactly when its element passes the filter |
| `Filtering.FilterKeepsExactly` | src/lib.rs:25-27 | the collected result meets the order-preserving "exactly the passing elements" characterisation |
| `Filtering.FilterIsSubsequence` | src/lib.rs:25-27 | the collected result is a subsequence of the input |
| `Filtering.FilterCons` | src/lib.rs:25-27 | filtering front to back, one element at a time as the iterator does, gives the same result |
| `Filtering.FilterAll` | src/lib.rs:26 | a filter that every element passes returns the whole input |
| `Filtering.FilterOfFilter` | src/lib.rs:26 | filtering by a stronger predicate after a weaker one equals filtering by the stronger one alone |
| `Minigrep.Search` | src/lib.rs:24-28 | at most one result per line; `SearchSelectsMatchingLines` states that the results are exactly the lines containing the query, in order |
| `Minigrep.SearchCaseInsensitive` | src/lib.rs:30-34 | at most one result per line; `SearchCaseInsensitiveSelectsMatchingLines` states that the results are exactly the lines whose upper-cased form contains the upper-cased query, in order |
| `Minigrep.SearchSelectsMatchingLines` | src/lib.rs:24-28 | `search` returns exactly the lines that contain the query, in their original order |
| `Minigrep.SearchCaseInsensitiveSelectsMatchingLines` | src/lib.rs:30-34 | `search_case_insensitive` returns exactly the lines whose upper-cased form contains the upper-cased query, in their original order |
| `Minigrep.SearchResultsAreLines` | src/lib.rs:24-34 | both results are subsequences of the lines, no longer than the list of lines, and no result contains `'\n'` |
| `Minigrep.SearchEmptyQuery` | src/lib.rs:24-28 | with the empty query, `search` returns every line, in order |
| `Minigrep.SearchWithinCaseInsensitive` | src/lib.rs:24-34 | the case-sensitive result is the case-insensitive result filtered by case-sensitive containment, so it is a subsequence of it |
| `Minigrep.SearchCaseInsensitiveIgnoresQueryCase` | src/lib.rs:30-34 | the case-insensitive search gives the same lines for the query and for its upper-cased form |
| `Minigrep.SearchCaseInsensitiveSameQuery` | src/lib.rs:30-34 | two queries that differ only in ASCII letter case find the same lines in case-insensitive mode |
| `Minigrep.NewConfig` | src/lib.rs:67-95 | fails with "Not enough arguments." exactly when there are fewer than 3 arguments; otherwise the query is `args[1]`, the file name is `args[2]`, the search is case-sensitive exactly when the `CASE_INSENSITIVE` lookup failed, and the two later error branches are never reached |
| `Minigrep.Results` | src/lib.rs:43-48 | in case-sensitive mode, exactly the lines that contain the query, in order; otherwise exactly the lines whose upper-cased form contains the upper-cased query, in order; always a subsequence of the lines |
| `Minigrep.ArgumentsSelectSearch` | src/lib.rs:88 | with at least three arguments, the tool runs `search` when the `CASE_INSENSITIVE` lookup failed and `search_case_insensitive` when it succeeded, whatever the variable's value |
| `Minigrep.SearchExample` | tests/test.rs:4-11 | `search("duct", …)` on the three-line text returns only "safe, fast, productive." |
| `Minigrep.SearchCaseInsensitiveExample` | tests/test.rs:15-26 | `search_case_insensitive("RusT", …)` on the four-line text returns "Rust:" and "Trust me." |

## Left out

- Opening and reading the file in `run` (src/lib.rs:38-41) is left out. It is I/O. On failure, `run` passes the I/O error up with `?`, and `main` prints "Application error: " with the error and exits with status 1 (src/main.rs:32-35).
- Printing the results (src/lib.rs:50-52) and all of `src/main.rs` are left out. They cover process exit codes, `eprintln!`/`println!` and the `env::args()` plumbing; all of it is I/O.
- The read of `CASE_INSENSITIVE` (src/lib.rs:88) is not modelled. `NewConfig` takes its outcome as the boolean `envLookupFailed`.
- `Text.ToUpper` upper-cases ASCII letters only. Rust's `to_uppercase` applies the full Unicode case mapping, and that mapping can change the length of a string ('ß' becomes "SS").
- The searches return copies of line contents, not slices borrowed from the text, so lifetimes are not modelled.
- `Text.Lines` removes one trailing `'\r'` from every line, including an unterminated last line. That is how `str::lines` behaved when this code was written. Rust releases since 2023 keep a lone `'\r'` at the end of an unterminated last line.
- `Text.Contains` is the definition of substring containment. The string-search algorithm inside `str::contains` is not modelled.
- The commented-out code (src/lib.rs:8-17, src/lib.rs:98-108) is not modelled.
- The example lemmas `Minigrep.SearchExample` and `Minigrep.SearchCaseInsensitiveExample` take the text as `contents`, constrained by their `requires` to the test's text. The literal is written as its lines joined with `"\n"`.
