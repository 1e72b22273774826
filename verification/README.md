# Confluence poster: notification report model

This Dafny project models the data path of a notification poster. The
poster fetches every pipe from a node's API and keeps the pipes whose
effective configuration carries a non-empty `notifications` object. It then
builds a report and publishes the report as an HTML table on a Confluence
page. The report has:

- the distinct rule types over all pipes, in first-seen order. These are the
  table's columns.
- one row per pipe, sorted by `_id`. A row holds the pipe's rules, each
  description followed by `";  "`, and the list of the pipe's rule types.

The model covers the following parts, one module each:

- the notification filter (`NotificationFilter`);
- order-preserving de-duplication (`Dedup`);
- report construction (`PipeInfo`), with its stable sort by `_id`
  (`Sorting`, with Python's string order in `StringOrder`);
- the content of each cell of the rendered table (`Template`);
- the check for missing environment variables that runs before anything else
  (`EnvConfig`).

The shared definitions live in these modules:

- `Results`: `Option` and `Result`.
- `Seqs`: filter, subsequence, first index and no-duplicates.
- `Pipes`: the JSON shape of a pipe, reduced to the keys the poster reads.

`Pipeline` composes the steps and proves end-to-end facts plus one concrete
two-pipe report.

The JSON dictionaries become datatypes:

- A pipe has an `_id` and an optional `metadata`.
- The metadata has an optional `notifications` object.
- That object has an optional `rules` list and a set of other keys. Its
  Python `len` is `Notifications.Size`.

A missing key that `get_pipe_info` subscripts raises `KeyError` in Python.
Here it is a `Failure(KeyError(key))` result at the first pipe that lacks the
key, so the error path is part of the model.

The filter at service/confluence_poster.py:113 tests the length of the whole `notifications`
object, `len(notifications) != 0`, not the `rules` list inside it. So two
kinds of pipe pass the filter although they have no rules to report:

- A pipe whose `notifications` holds other keys but no `rules`. It then stops
  `get_pipe_info` with a `KeyError` for `rules` (`Pipeline.BuildReport`).
- A pipe with an empty `rules` list. It gets a row in which every cell is the
  placeholder (`Pipeline.EmptyRulesGivePlaceholderRow`).

Python's `sorted` (Timsort) is modelled as a stable insertion sort,
`Sorting.SortById`. `Sorting.SortByIdIsUnique` proves that any arrangement
that is sorted by `_id` and keeps the input order among equal `_id`s equals
this one. So the result does not depend on which stable algorithm is used.

## Model

| member | source | states |
|---|---|---|
| Pipes.RulesOf | service/confluence_poster.py:132 | the rules list is reached exactly when `metadata`, `notifications` and `rules` are all present, and it is then the `rules` value itself; otherwise the `KeyError` names the first of those keys missing along the path |
| NotificationFilter.NotificationsSizeNonZero | service/confluence_poster.py:113 | the `notifications` object has non-zero length exactly when it holds `rules` or some other key |
| NotificationFilter.HasNotifications | service/confluence_poster.py:111-113 | a pipe passes the test exactly when it has `metadata` with a `notifications` object that holds `rules` or any other key |
| NotificationFilter.PipesWithNotifications | service/confluence_poster.py:108-115 | a pipe is in the result if and only if it is in the input and has metadata with a non-empty `notifications` object; the result is a subsequence of the input |
| NotificationFilter.PipesWithNotificationsPositions | service/confluence_poster.py:110-114 | the result is the input at an increasing list of positions, and a position is in that list exactly when its pipe passes the test, so order is kept and nothing else is dropped |
| Dedup.Distinct | service/confluence_poster.py:118-123 | the result has no duplicates, is no longer than the input, and holds exactly the elements of the input |
| Dedup.GetDistinct | service/confluence_poster.py:118-123 | the append loop that skips elements already in the output computes `Distinct` |
| Dedup.DistinctFirstSeenOrder | service/confluence_poster.py:120-122 | the elements of the result appear in the order of their first occurrence in the input |
| Dedup.DistinctIsUnique | service/confluence_poster.py:118-123 | any duplicate-free sequence with the same elements, ordered by first occurrence, equals `Distinct` of the input |
| Dedup.DistinctOfNoDups | service/confluence_poster.py:118-123 | a list without duplicates comes back unchanged |
| Dedup.DistinctIdempotent | service/confluence_poster.py:118-123 | de-duplicating twice gives the same as once |
| PipeInfo.CopyRules | service/confluence_poster.py:132-133 | the copied rules have the same types in the same order, each description followed by `";  "` |
| PipeInfo.TypesOf | service/confluence_poster.py:132-135 | a pipe's `pipe_rule_types` lists the type of each of its rules, in rule order |
| PipeInfo.BuildRow | service/confluence_poster.py:130-138 | the row carries the pipe's `_id`, one copied rule per input rule and the matching rule type per position, and is well formed |
| PipeInfo.FirstWithoutRules | service/confluence_poster.py:129-132 | every pipe before the returned position reaches its rules, and the pipe at that position does not |
| PipeInfo.CollectRows | service/confluence_poster.py:129-138 | rows are built exactly when every pipe reaches its rules, one row per pipe in input order; otherwise the error is that of the first pipe lacking a key |
| PipeInfo.InputRuleTypes | service/confluence_poster.py:129-134 | a type is collected exactly when some pipe that reaches its rules has a rule of that type |
| PipeInfo.GetPipeInfo | service/confluence_poster.py:126-140 | the report exists exactly when every pipe reaches its rules; its rows are a sorted, per-`_id` order-preserving permutation of the built rows; its rule types are duplicate-free and are exactly the types occurring in the input |
| PipeInfo.RowRuleTypesMatchInput | service/confluence_poster.py:134-135 | the types read back from the rows, row after row, are the types collected while reading the input |
| PipeInfo.RuleTypesFirstSeen | service/confluence_poster.py:134-139 | `rule_types` is `get_distinct` of all rule types in input order, taken before sorting, and is ordered by first occurrence |
| PipeInfo.RowsAreStablySorted | service/confluence_poster.py:140 | the report's rows are the one arrangement that is sorted by `_id` and keeps input order among equal `_id`s |
| StringOrder.LessEqReflexive | service/confluence_poster.py:140 | Python string `<=` is reflexive |
| StringOrder.LessEqTotal | service/confluence_poster.py:140 | any two `_id`s are comparable |
| StringOrder.LessEqAntisymmetric | service/confluence_poster.py:140 | two `_id`s ordered both ways are equal |
| StringOrder.LessEqTransitive | service/confluence_poster.py:140 | string `<=` is transitive, so sortedness is a total preorder on rows |
| Sorting.Insert | service/confluence_poster.py:140 | inserting a row adds exactly that row to the multiset |
| Sorting.SortById | service/confluence_poster.py:140 | the sorted rows are a permutation of the input rows |
| Sorting.InsertKeepsSorted | service/confluence_poster.py:140 | inserting into a sorted sequence keeps it sorted by `_id` |
| Sorting.InsertKeepsIdOrder | service/confluence_poster.py:140 | insertion places the new row before the rows with the same `_id`, as a stable sort fed right to left does |
| Sorting.SortByIdSortedStable | service/confluence_poster.py:140 | the result is sorted by `_id` and the rows with each `_id` keep their input order |
| Sorting.StableSortedUnique | service/confluence_poster.py:140 | two sorted sequences with the same rows per `_id`, in the same order, are equal |
| Sorting.SortByIdIsUnique | service/confluence_poster.py:140 | every stable sort by `_id` of the rows gives `SortById` |
| Template.Cell | service/confluence_poster.py:31-41 | a cell is the placeholder when the row has no rule of the column's type; in a well-formed row a cell with descriptions ends with the separator, so the placeholder appears exactly when the type is absent |
| Template.RowCells | service/confluence_poster.py:28-43 | a body row has the pipe id followed by one cell per rule type column, in column order |
| Template.Render | service/confluence_poster.py:21-44 | the table is the header (`Pipe`, then the rule types) followed by one row per report row in report order, and every row has the same width |
| Template.CopiedDescriptions | service/confluence_poster.py:33-35 | the cell text read from a built row is the input descriptions of that type, each with the separator, in rule order |
| Template.CellOfBuiltRow | service/confluence_poster.py:30-41 | a cell holds the pipe's descriptions of the column type, or the placeholder `&#32;` exactly when the pipe has no rule of that type |
| Template.DescriptionsEndWithSeparator | service/confluence_poster.py:33-37 | when every description carries the separator and some rule has the column's type, the concatenated descriptions end with the separator, so they differ from the placeholder |
| EnvConfig.MissingIn | service/confluence_poster.py:58-62 | every name collected is a required name that is unset or empty, and every unset or empty required name is collected |
| EnvConfig.MissingInFacts | service/confluence_poster.py:58-62 | the missing names are exactly the unset or empty variables, in reading order, and there are none exactly when all are set and non-empty |
| EnvConfig.LoadVariables | service/confluence_poster.py:58-63 | the loop reports exactly the unset or empty required variables, in order, and records every required variable's value in the configuration |
| EnvConfig.ProceedsExactlyWhenAllSet | service/confluence_poster.py:14 | for the five required names, nothing is missing exactly when each is set to a non-empty value |
| Pipeline.BuildReport | service/confluence_poster.py:148 | the report for the fetched pipes fails exactly when a pipe passes the filter without reaching its rules, and the error then names `rules` |
| Pipeline.NotificationsWithoutRulesStopReport | service/confluence_poster.py:111-132 | a pipe whose `notifications` holds only an `email` key passes the filter and stops the report with a `KeyError` for `rules` |
| Pipeline.EmptyRulesGivePlaceholderRow | service/confluence_poster.py:113-140 | a pipe with an empty `rules` list passes the filter and gets a row with no types, whose every cell is the placeholder |
| Pipeline.NoNotifiablePipes | service/confluence_poster.py:108-140 | when no pipe passes the filter, the report is empty and the table is the header cell alone |
| Pipeline.TwoPipeScenario | service/confluence_poster.py:108-148 | two pipes given out of `_id` order yield the columns in first-seen order, the rows in `_id` order, and cells holding a suffixed description or the placeholder |

## Left out

- `Node.get_all_pipes` (network request, JSON decoding, `sys.exit` on errors) is not modelled. The fetched pipes are the input to `Pipeline.BuildReport`.
- `update_confulence` is not modelled. It covers the Confluence client, page lookup, the authentication and not-found exits, the version bump and the title-casing of the page title, and all of it is foreign calls and I/O.
- The template's HTML markup, whitespace, comments and Jinja2 escaping are not modelled. Only the logical content of each cell is. Descriptions are placed verbatim.
- Logging, the log level, the timestamp and the process exits in the `__main__` block are not modelled. The exit decision is stated as `EnvConfig.ProceedsExactlyWhenAllSet`.
- Reading the process environment is not modelled. The environment is a parameter of `EnvConfig.LoadVariables`, and the configuration object becomes a returned map.
- Pipes lacking `config` or `effective`, rules lacking `type` or `description`, and non-string or non-list JSON values are outside the model. The pipe datatype always has those parts with the types the code expects. Only the keys the code tests or subscripts in `metadata`, `notifications` and `rules` can be absent.
- Python strings are modelled as sequences of Dafny characters, compared code point by code point. Characters outside Dafny's `char` range are not modelled.
