# Release-notes CSV importer, modelled in Dafny

This project models `csv_importer.py` of the release-notes generator. That module turns a
Jira CSV export into the data the DOCX renderer consumes. It has four operations:

- `sanitize_text_csv` strips a cell.
- `load_and_process_issues` reads the header and checks the configured columns. It builds
  the header map and the fix-version column list, decides whether issue-type grouping stays
  on, and keeps the data rows of header width.
- `find_global_version_title` picks the release title from the fix-version strings that
  carry the `(global)` marker.
- `group_issues_by_version_and_type` files each row's task record under every distinct
  microservice version it carries, optionally under an issue-type sub-key, and sorts
  every bucket by task key.

Modules follow that structure:

| module | file | what it holds |
|---|---|---|
| `Wrappers` | wrappers.dfy | `Option` |
| `Text` | text.dfy | Python `str` primitives: `strip()`, `split(sep)`, `in`, `replace(pat, "")`, string order, `str(n)` |
| `FixVersions` | fix_versions.dfy | the comma pieces of a row's fix-version cells, shared by the title scan and the grouping engine |
| `VersionPattern` | version_pattern.dfy | the pattern `^[A-Z]{2}\d+(\.\d+){1,2}$` as a predicate, which the grouping engine filters with, and a one-pass matcher proved to decide it |
| `Tasks` | tasks.dfy | the task record and the stable sort by key |
| `Loader` | loader.dfy | `sanitize_text_csv` and `load_and_process_issues` |
| `GlobalTitle` | global_title.dfy | `find_global_version_title` |
| `Grouping` | grouping.dfy | `group_issues_by_version_and_type` |
| `Pipeline` | pipeline.dfy | the loader's results handed to the grouping engine, as main.py means to chain them |

Input and output are not modelled. The loader takes the records a CSV reader would yield,
the first being the header. Its result is an `Option` (`None` for the all-`None` sentinel)
together with the configuration as the loader leaves it. The Python code mutates
`col_config['use_issue_type_grouping']` in place; here the updated configuration is returned.

Each bucket is related to an independent reference definition: the tasks of the carrying
rows, in row order. With `StableSortUnique`, sortedness, permutation and per-key order pin
every leaf down completely.

Where the code and its comments disagree, the model follows the code. The `except
StopIteration` handler at csv_importer.py:91 is commented as covering "empty or header
only". Only the header `next` can raise it, though, so a header-only file loads
successfully with no rows (`Loader.HeaderOnlyLoads`).

## Model

| member | source | states |
|---|---|---|
| `Loader.Sanitize` | csv_importer.py:11-14 | A missing value gives `""`. A present one gives a strip of it: whitespace cut from both ends and none left at either end. `Text.StripUnique` makes that strip unique. |
| `Text.TrimIsStrip` | csv_importer.py:14 | `Trim` cuts only whitespace prefixes and suffixes, and leaves a trimmed string (Python's `strip()`). |
| `Text.StripUnique` | csv_importer.py:14 | Only one trimmed string can be obtained from `s` by cutting whitespace from both ends, so `strip()` is fully determined. |
| `Text.TrimOfTrimmed` | csv_importer.py:29 | Stripping is idempotent: a trimmed string is its own strip. |
| `Text.TrimPadded` | csv_importer.py:29 | Whitespace padding around a trimmed string is exactly what `strip()` removes. |
| `Text.JoinSplit` | csv_importer.py:105 | Joining the pieces of `s.split(sep)` with `sep` gives back `s`: splitting loses no text. |
| `Text.SplitJoin` | csv_importer.py:157 | Splitting a join of a non-empty list of separator-free pieces gives back the pieces, so `split` is the inverse of `join` on such lists. |
| `Text.SplitPiecesFree` | csv_importer.py:105 | No piece of a split holds the separator. |
| `Text.RemoveAllShrinks` | csv_importer.py:108-109 | Without an occurrence of the pattern, `replace(pat, "")` changes nothing. With one, it removes at least the pattern's length. |
| `Text.RemoveTrailing` | csv_importer.py:109 | A marker at the end of text that cannot start it is found by `in`, and removing it leaves exactly that text. |
| `Text.Least` | csv_importer.py:118-123 | The first element of `sorted(...)` is a member of the collection, not above any member. |
| `Text.LeastUnique` | csv_importer.py:118-123 | Only one member can be below all members, so the first sorted element does not depend on the order of the set. |
| `Text.Decimal` | csv_importer.py:152 | `str(n)` is a digit string without a leading zero whose base-ten value is `n`. |
| `FixVersions.CellVersionsExactly` | csv_importer.py:103-105 | A string comes from cell `i` exactly when `i` is inside the row, the cell is not empty, and the string is a stripped comma piece of it. |
| `FixVersions.RowVersionsExactly` | csv_importer.py:101-105 | A row's version strings are exactly the stripped comma pieces of its non-empty fix-version cells inside the row. |
| `VersionPattern.MatchMicroserviceVersion` | csv_importer.py:137 | The single-pass scan accepts exactly the strings of two upper-case letters followed by two or three dot-separated non-empty digit groups. |
| `VersionPattern.FromGroups` | csv_importer.py:137 | Two upper-case letters and two or three digit groups joined by dots always form a matching token. |
| `VersionPattern.MicroserviceVersionChars` | csv_importer.py:137 | A matching token holds only upper-case letters, digits and dots. |
| `VersionPattern.MicroserviceVersionHasNoMarker` | csv_importer.py:137 | No matching token carries `(global)`, so a title-bearing version is never a grouping key. |
| `VersionPattern.AcceptedExamples` | csv_importer.py:137 | `AM2.3.3` and `AM10.0` match. |
| `VersionPattern.RejectedExamples` | csv_importer.py:137 | `AM2` (one group), `am2.3` (lower case) and `FR1.0(global)` do not match. |
| `Tasks.SortByKey` | csv_importer.py:198-204 | The result is sorted by key, is a permutation of the input, and keeps the input order among equal keys, like Python's stable `list.sort`. |
| `Tasks.StableSortUnique` | csv_importer.py:198-204 | Two lists that are both sorted and have the same records per key in the same order are equal, so any stable sort gives `SortByKey`'s result. |
| `Tasks.SortExample` | csv_importer.py:204 | Sorting keys `B-2`, `A-1`, `A-10` gives `A-1`, `A-10`, `B-2`: string order, not numeric order. |
| `Loader.FirstIndexMap` | csv_importer.py:28-31 | Every name is a key, each key maps to a position holding it, and no earlier position holds it: the first index wins. |
| `Loader.HeaderMap` | csv_importer.py:28-31 | Every stripped header name is a key and maps to the first column whose stripped header is that name. |
| `Loader.HeaderMapNames` | csv_importer.py:28-31 | A name is a header-map key exactly when some header cell strips to it. |
| `Loader.ColumnsNamedExactly` | csv_importer.py:67-68 | An index is in the fix-version list exactly when it is a header position whose stripped cell equals the name. The list is non-empty exactly when some cell strips to the name. |
| `Loader.KeepRowsConcat` | csv_importer.py:75-77 | Row filtering is row by row: the kept rows of a concatenation are the concatenated kept rows, in input order. |
| `Loader.KeepRowsSingle` | csv_importer.py:75-77 | A single row is kept, with every cell stripped, exactly when it has as many cells as the header. |
| `Loader.IssueTypeColumn` | csv_importer.py:53-61 | Grouping stays on exactly when it was on and the issue-type name is set, non-empty and a header-map key. Nothing else in the configuration changes. The index is present exactly when grouping stays on, and is that name's header-map index. |
| `Loader.RequiredPresent` | csv_importer.py:34-51 | The check passes exactly when the three critical names are stripped header names and the fix-versions name is a raw header cell. |
| `Loader.ProcessFails` | csv_importer.py:34-72 | The sentinel comes back exactly when a critical name is missing from the header map, or the fix-versions name is not a raw header cell, or no header cell strips to it. |
| `Loader.ProcessConfig` | csv_importer.py:53-65 | Loading only ever switches type grouping off. It stays on exactly when the issue-type name is set, non-empty and a header name, whether or not loading then fails. |
| `Loader.ProcessFixColumns` | csv_importer.py:67-86 | A successful load returns a non-empty fix-version list holding exactly the columns whose stripped header is the configured name. |
| `Loader.ProcessIssueColumn` | csv_importer.py:53-86 | A successful load returns an issue-type index exactly when type grouping stays on, and it is the header-map index of the configured name. |
| `Loader.Load` | csv_importer.py:17-86 | The sentinel comes back exactly when there is no record, or the first record (the header) lacks a critical name after stripping, or the fix-versions name is not a raw header cell, or no header cell strips to it. Without a record the configuration is untouched. Otherwise only the type-grouping flag can change: it stays on exactly when the issue-type name is set, non-empty and a header name. On success every row is as wide as the header, the header-map keys are exactly the stripped header names, the fix-version list is non-empty and holds exactly the matching columns, and the issue-type index is present exactly when type grouping stays on. |
| `Loader.HeaderOnlyLoads` | csv_importer.py:75-86 | A file holding only a header that passes the checks loads successfully, with no rows. |
| `Loader.FixVersionsAccepted` | csv_importer.py:48-72 | Taken together, the raw-header test and the stripped index collection accept exactly a fix-versions name that is a raw header cell and is itself trimmed. |
| `Loader.PaddedFixVersionsHeaderRejected` | csv_importer.py:48-51 | A fix-versions header with leading blanks is a header-map key under its stripped name. Without an exact raw cell, the file is still rejected. |
| `GlobalTitle.TitlesExactly` | csv_importer.py:107-111 | A title is collected exactly when some version string offers it: the string carries the marker, and what remains after removing it and stripping is non-empty. |
| `GlobalTitle.CandidatesExactly` | csv_importer.py:100-111 | The candidate titles are exactly the titles offered by a fix-version piece of some row. |
| `GlobalTitle.FindGlobalVersionTitle` | csv_importer.py:99-125 | The result is never empty. It is the default title when there is no candidate; otherwise it is a candidate not above any other, the first of the sorted set. |
| `GlobalTitle.TitleDeterminedByCandidates` | csv_importer.py:113-123 | Equal candidate sets give equal titles. |
| `GlobalTitle.TitleIgnoresOrderAndRepetition` | csv_importer.py:100-111 | Reordering or repeating rows or fix-version columns does not change the title. |
| `GlobalTitle.MarkedSuffixTitle` | csv_importer.py:108-111 | A non-empty trimmed title that holds no `(`, followed by `(global)`, offers exactly that title. |
| `GlobalTitle.MicroserviceVersionOffersNoTitle` | csv_importer.py:108 | No string matching the microservice pattern offers a title, since none carries the marker. |
| `GlobalTitle.UnmarkedTitles` | csv_importer.py:108 | The two strings `AM2.3.3` and `X`, both shorter than the marker, offer no title. |
| `Grouping.Distinct` | csv_importer.py:159 | `list(set(...))` holds every token exactly once and nothing else. |
| `Grouping.RowTokensExactly` | csv_importer.py:154-157 | A row's tokens are exactly the non-empty stripped comma pieces of its non-empty fix-version cells. |
| `Grouping.MicroserviceVersionsExactly` | csv_importer.py:154-161 | A row is filed under `v` exactly when `v` matches the pattern and is a stripped comma piece of one of its fix-version cells. |
| `Grouping.IssueTypeOf` | csv_importer.py:180-186 | A row's sub-key is the strip of its issue-type cell when that cell exists and is not empty, otherwise the missing-type label. |
| `Grouping.TaskOfWideRow` | csv_importer.py:171-178 | For a row wide enough for the key and both description columns, the task record is made of exactly those three cells. |
| `Grouping.AddFlat` | csv_importer.py:188-192 | Appending to every listed version adds each version as a key and appends the task once to its bucket; every other bucket is unchanged. |
| `Grouping.AddTyped` | csv_importer.py:188-192 | Appending under every listed version and one sub-key adds exactly those keys and sub-keys, and appends the task once to those leaves only. |
| `Grouping.CollectFlat` | csv_importer.py:151-192 | Without type grouping, the buckets are exactly the carried versions, and each holds its reference contributions. |
| `Grouping.CollectTyped` | csv_importer.py:151-192 | With type grouping, the keys and sub-keys are exactly the carried ones, and each leaf holds its reference contributions. |
| `Grouping.Group` | csv_importer.py:128-146 | The result is `None` exactly when the key column is not in the header map. It is typed exactly when type grouping is on and an issue-type index is given. |
| `Grouping.GroupKeys` | csv_importer.py:151-192 | The grouping is keyed by exactly the versions some row carries, and every key matches the version pattern. |
| `Grouping.GroupLeaf` | csv_importer.py:188-204 | Every leaf is sorted by key and holds exactly the reference contents, with equal keys in row order. |
| `Grouping.LeavesNonEmpty` | csv_importer.py:188-192 | No key or sub-key exists without at least one task under it. |
| `Grouping.RowAddsOnce` | csv_importer.py:151-192 | One more row adds its task once to the leaf of each version it carries, under its own sub-key when typed, and nothing to any other leaf. |
| `Grouping.SkippedRowChangesNothing` | csv_importer.py:163-166 | A row without a matching version token leaves the grouping unchanged. |
| `Pipeline.LoadedGroupingSucceeds` | csv_importer.py:128-146 | After a successful load, grouping never fails. It is typed exactly when the loader left type grouping on. |
| `Pipeline.LoadedRowsKeepTheirKeys` | csv_importer.py:151-178 | After a successful load, no task falls back to a generated key, and every task copies its key and description cells. |

## Left out

- File access is not modelled: opening the file, `utf-8-sig` BOM decoding, and `csv.reader` splitting and quoting (csv_importer.py:22-26). The loader starts from the records the reader would yield.
- The `FileNotFoundError` and catch-all `except Exception` handlers are not modelled (csv_importer.py:88-90, 94-96). They react to I/O and decoding failures outside the model. The `StopIteration` path (no records) is modelled.
- Logging is not modelled. No `logger` call affects a result, and the counters used only for log messages (csv_importer.py:148-149, 168, 193) are dropped.
- The in-place mutation of `col_config['use_issue_type_grouping']` (csv_importer.py:61) is modelled as the configuration returned in `LoadOutcome.config`.
- Grouping results are Dafny maps, which have no order. The insertion order of Python's `dict` is not modelled. It does not matter downstream, because the renderer sorts both key levels (docx_creator.py:79 and :88).
- `list(set(tokens))` at csv_importer.py:159 has an unspecified order. It is modelled as first-occurrence order; a bucket's contents depend only on membership.
- VersionPattern.MatchMicroserviceVersion: accepts only the ASCII digits `0`-`9` for `\d`. Python's `re` matches any Unicode decimal digit there (Arabic-Indic, full-width and so on). A token using such digits is rejected here but accepted by the program.
- Grouping.Group: classifies version tokens with the same ASCII-only digit test. A token with non-ASCII decimal digits is not filed here, while csv_importer.py:137 would file it.
- Text.IsSpace: a fixed table of the code points Python 3's `str.isspace()` accepts. Changes to the Unicode database in other Python versions are not followed.
- The str `<=` order is code-point order (`Text.LexLessEq`), which is Python's. No locale collation is modelled.
- main.py is not modelled. As written, main.py:166-168 passes six arguments to the five-parameter `group_issues_by_version_and_type` and would raise `TypeError`. main.py:178-185 also passes a `config_data` keyword that `create_release_notes_docx` does not accept. `Pipeline` models the evident intent: the loader's four results and its configuration go straight to grouping.
- docx_creator.py (rendering the DOCX) is not part of this model.
- No concrete mixed-cell example is proved: one cell holding a title-bearing version next to a microservice version. The general lemmas cover that case (`FixVersions.RowVersionsExactly`, `GlobalTitle.TitlesExactly`, `Grouping.MicroserviceVersionsExactly`, `VersionPattern.MicroserviceVersionHasNoMarker`).
