# isocodes in Dafny

This project models the pure core of the Python package `isocodes`. The package holds the ISO 3166, 639, 4217 and 15924 datasets and offers a small command-line front end. The model has two layers.

- **The lookup layer** (`isocodes/__init__.py`).
  - An `ISO` object holds one dataset: an ordered list of records, each mapping field names to string values.
  - `get(**kwargs)` returns the first record whose field equals the value.
  - `_sorted_by_index(f)` sorts `(record[f], record)` pairs.
  - `_name_from_index(f)` lists `(record[f], record["name"])` pairs.
  - `len` and `items` expose the dataset.
  - Each subclass (`Countries`, `Languages`, …) only chooses which fields its `by_*` and `name` properties use.
- **The serialisers** (`isocodes/cli.py`).
  - The CSV and table branches of `format_output`, for a list of records and for a single record.
  - The `--limit` truncation that every `search_*` handler applies.
  - The `--country` prefix filter of the subdivision search.

Modules, one per file:

- `records.dfy` (`Records`): records, Python exceptions as `Result` errors, and `Option`.
- `lex_order.dfy` (`LexOrder`): Python's code-point order on strings, proved to be a strict total order, and `sorted()` of a set of strings.
- `text.dfy` (`Text`): the `str` operations the serialisers use: `join`, `replace`, `ljust`, `*` and `startswith`. It also has `split`, which `format_output` never calls; it is used only to state the join/split round trips of the rendered text.
- `iso.dfy` (`Iso`): the `ISO` class, including an insertion sort whose result is proved ordered and a permutation.
- `datasets.dfy` (`Datasets`): the eight subclasses as constants of a `Kind`.
- `format.dfy` (`Format`): `format_output`.
- `search.dfy` (`Search`): `--limit` and `--country`.

A Python exception raised on some input is modelled as an `Err` result, so that each error path can be stated. Three exceptions occur:

- `KeyError`: a record lacks the field being read.
- `TypeError`: `sorted` has to compare two dicts.
- `StopIteration`: `get()` is called without keyword arguments.

Where the code and the package's tests disagree, the model follows the code:

- `get()` with no criteria raises `StopIteration` at `isocodes/__init__.py:41`. The test at `tests/test_edge_cases.py:21-22` expects `{}`. This is `Iso.Get`'s `Err` case.
- `get` compares values exactly at `isocodes/__init__.py:46`. The test at `tests/test_edge_cases.py:63-73` expects substring matching. This is `Iso.GetFindsExactValue`.
- `by_common_name` raises `KeyError` as soon as one country lacks `common_name`. The test at `tests/test_general.py:149-153` expects a list. This is `Datasets.CommonNameViewFailsOnMissingField`.
- `sorted` compares the second tuple component only on a tie, so a tie between two different records raises `TypeError`. A tie between two equal records does not. `Iso.SortedByIndex` states the exact condition, `Iso.Clash`. Distinct values are sufficient but not necessary.

Neither the CSV branch nor the table branch escapes newlines: `isocodes/cli.py:63` replaces only `,`, and `isocodes/cli.py:114` and `129` replace nothing. A field name or value holding a newline therefore adds lines to the output, which is why the shape lemmas of `Format` require newline-free records.

## Model

| member | source | states |
|---|---|---|
| LexOrder.LexLtTotal | isocodes/__init__.py:38 | any two strings are equal or ordered one way or the other under Python's string `<` |
| LexOrder.LexLtTransitive | isocodes/__init__.py:38 | Python's string `<` is transitive |
| LexOrder.LexLtAsymmetric | isocodes/__init__.py:38 | `a < b` and `b < a` never both hold |
| LexOrder.SortedSet | isocodes/cli.py:57 | `sorted(all_keys)` holds every key exactly once, and nothing else, in strictly increasing order |
| Text.SplitJoin | isocodes/cli.py:66 | splitting a `"\n".join` or `",".join` on its separator gives back the pieces, provided there is at least one piece and no piece contains the separator (`",".join([])` is `""`, which splits into `[""]`) |
| Text.JoinSplit | isocodes/cli.py:66 | joining the pieces of a split with the same separator rebuilds the string, and no piece contains the separator |
| Text.Replace | isocodes/cli.py:63 | `s.replace(",", ";")`: same length, and every `,` becomes `;` while every other character is kept, so no `,` is left |
| Text.Repeat | isocodes/cli.py:109 | `"-" * n` is `n` characters, each a `-` |
| Text.LJust | isocodes/cli.py:107 | `s.ljust(w)` is `s` followed by spaces up to width `w` and is never shorter than `s` |
| Records.Cell | isocodes/cli.py:63 | `item.get(h, "")`, as used at cli.py:63, 101, 114, 129 and 271: the field's value when the record has the field, and `""` when it does not |
| Iso.NameFromIndex | isocodes/__init__.py:34-35 | succeeds exactly when every record has the code field and `"name"`, and otherwise fails with `KeyError`; on success it has the dataset's length and element `i` is `(data[i][index], data[i]["name"])` |
| Iso.SortedByIndex | isocodes/__init__.py:37-38 | `KeyError` exactly when a record lacks the field; otherwise `TypeError` exactly when two different records share a value; on success the same pairs as the dataset, as a multiset |
| Iso.SortedByIndexOrdered | isocodes/__init__.py:38 | a successful view is ordered by field value, and entries with equal values hold equal records |
| Iso.SortedByIndexStrict | isocodes/__init__.py:37-38 | with every record holding the field and all values distinct, the view succeeds and is strictly increasing |
| Iso.SortedByIndexPermutes | isocodes/__init__.py:38 | a view holds each dataset record as often as the dataset does, and every pair `(v, r)` has `r[f] == v` |
| Iso.ViewsHoldSameRecords | isocodes/__init__.py:37-38 | two successful views over different fields hold the same multiset of records |
| Iso.LenMatchesViews | isocodes/__init__.py:31-53 | `len` is the number of entries of every successful view and of the name list, and `items` is the dataset itself |
| Iso.NamesAgreeWithView | isocodes/__init__.py:34-38 | when both the name list and the sorted view over the code field succeed, each `(code, name)` pair of the name list appears in that view, on a record with that name |
| Iso.Filter | isocodes/__init__.py:43-47 | the comprehension is empty exactly when no record matches, and otherwise its head is the first matching record in dataset order |
| Iso.Get | isocodes/__init__.py:40-49 | `StopIteration` exactly when no criteria are given; otherwise `{}` exactly when no record has the first key equal to its value, else the first such record |
| Iso.GetFindsExactValue | isocodes/__init__.py:41-47 | with a string value the result is `{}` or a dataset record holding that exact value; records lacking the key are skipped; criteria after the first do not change the result |
| Iso.GetNonStringIsEmpty | isocodes/__init__.py:46 | a value that is not a string matches nothing, so the result is `{}` |
| Datasets.By | isocodes/__init__.py:56-209 | a `by_*` view has the dataset's length, and each entry's record belongs to the dataset and holds the entry's value |
| Datasets.Names | isocodes/__init__.py:77-213 | a subclass's `name` list succeeds exactly when every record has its code field and `"name"`, and pairs them in dataset order |
| Datasets.NameFieldSortable | isocodes/__init__.py:56-213 | every subclass has `by_name`, and the code field of its `name` property also has a `by_*` view |
| Datasets.CommonNameViewFailsOnMissingField | isocodes/__init__.py:65-67 | `by_common_name` raises `KeyError` when any country lacks `common_name` |
| Datasets.CodeViewStrict | isocodes/__init__.py:56-213 | on a dataset whose codes are distinct, the view by the `name` property's code field succeeds and is strictly increasing |
| Format.Render | isocodes/cli.py:29-131 | empty data gives `"No results found."` in every format; `"json"` goes to the JSON branch; `"csv"` gives the CSV text; any other format gives the table text |
| Format.AllKeys | isocodes/cli.py:49-52 | a key is collected exactly when some record has it |
| Format.Requested | isocodes/cli.py:54-55 | the requested headers are exactly the requested fields that occur, and there are no more of them than were requested |
| Format.RequestedKeepsOrder | isocodes/cli.py:55 | the requested headers keep the order in which the fields were given |
| Format.Headers | isocodes/cli.py:54-57 | with `--fields`: exactly the requested fields that occur; without: every key once, strictly sorted; never a field that does not occur |
| Format.OnlyRequestedFields | isocodes/cli.py:54-57 | with `--fields`, no unrequested column appears for either payload |
| Format.CsvCell | isocodes/cli.py:63 | a CSV cell is the value with every `,` replaced by `;` and every other character kept, so it contains no comma; it is empty when the field is missing |
| Format.CsvLines | isocodes/cli.py:59-65 | CSV has `1 + n` lines; line 0 is the headers joined by `","`, and line `i + 1` is record `i`'s row |
| Format.CsvRowSplits | isocodes/cli.py:60-65 | with at least one header, each data row splits on `","` into exactly one cell per header, holding that header's escaped value, or `""` when the field is missing (with no headers the row is `""`, one empty cell) |
| Format.CsvHeaderSplits | isocodes/cli.py:59 | with at least one header and comma-free field names, the header line splits back into the headers |
| Format.CsvListShape | isocodes/cli.py:44-66 | for a non-empty list whose field names and values contain no newline, the CSV text splits on newlines into the header line and one row per record |
| Format.CsvSingleShape | isocodes/cli.py:67-79 | for a non-empty record whose field names and values contain no newline, the CSV text splits into its header line and its value line |
| Format.ColWidth | isocodes/cli.py:96-102 | the column width is at least the header's length and every value's length, and equals one of them |
| Format.TableLines | isocodes/cli.py:104-118 | header line, a rule of `"-"` exactly as long as the header line, then one row per record |
| Format.TableRowWidth | isocodes/cli.py:112-116 | every data row is exactly as long as the header line |
| Format.TableLinesEqualWidth | isocodes/cli.py:104-118 | all lines of a list table, the rule included, have one length |
| Format.TableMissingFieldBlank | isocodes/cli.py:114 | a missing field shows as a blank cell of the column's width |
| Format.TableListShape | isocodes/cli.py:81-118 | for a non-empty list whose field names and values contain no newline, the table text splits on newlines into the table's lines, all of equal length |
| Format.MaxLen | isocodes/cli.py:126 | the longest header length, or 0 with no headers |
| Format.SingleLinesAligned | isocodes/cli.py:126-130 | each single-record line is the key, spaces up to the longest key, `" : "`, then the value, empty when missing |
| Format.SingleTableShape | isocodes/cli.py:120-131 | for a non-empty record whose field names and values contain no newline, and at least one header, the table text splits into one aligned `key : value` line per header |
| Search.SliceTo | isocodes/cli.py:172 | Python's `s[:k]`: a prefix of length `min(k, n)` for `k >= 0`, and of length `max(n + k, 0)` for `k < 0` |
| Search.LimitAsWritten | isocodes/cli.py:171-172 | the result is a prefix of the results; no limit or `0` keeps them all; a positive `k` keeps `min(k, n)`; a negative `k` keeps `max(n + k, 0)` |
| Search.NegativeLimitDropsResults | isocodes/cli.py:171-172 | a negative limit shortens any non-empty result list; `--limit -1` on two results leaves one |
| Search.Limit | isocodes/cli.py:171-172 | the result is a prefix of length `min(k, n)` for a positive `k`, and the whole list otherwise |
| Search.LimitAgreesWhenNonNegative | isocodes/cli.py:171-172 | the corrected truncation equals the written one when the limit is absent or non-negative, and keeps every result when it is negative |
| Search.CountryFilter | isocodes/cli.py:265-272 | a record is kept exactly when it is in the subdivisions and its `"code"` starts with the country code and `"-"` |
| Search.CountryFilterKeepsOrder | isocodes/cli.py:268-272 | the filter splits over concatenation, so dataset order is kept |
| Search.CountryFilterMultiplicity | isocodes/cli.py:268-272 | a kept record appears as often as in the dataset, and any other record not at all |
| Search.CodelessNeverListed | isocodes/cli.py:271 | a record without `"code"` is never listed |
| Search.CountryFilterCodes | isocodes/cli.py:271 | every listed record has `"code"`, its code starts with the country code, and `-` comes right after it |

## Left out

- Loading (`isocodes/__init__.py:8-29`): opening and parsing the JSON files and resolving paths are I/O. An `Iso.Dataset` value is the dataset after loading.
- The module-level instances (`isocodes/__init__.py:216-223`) are process-global state. `Datasets.IsoKey` and the `isoKey` field of an `Iso.Dataset` value only record which standard each instance loads. No operation reads them, because the file they name is not modelled.
- Generators: `_name_from_index` and `name` return a lazy generator. It is modelled as the fully consumed list, so a `KeyError` on record `k` is modelled as a failure of the whole list, not after `k` pairs.
- Repeat calls: they give equal results because every member is a pure function, so no lemma is stated for that.
- The JSON branch of `format_output` (`isocodes/cli.py:36-42`) is a call into `json.dumps`. `Format.Render` returns `None` there.
- `str(...)` around values: record values are strings, so `str` is the identity and is not modelled.
- Format.Render: the `fields` argument is a sequence, and the empty sequence stands for `None`. Both are falsy in Python, so the two behave the same.
- The `search_*` handlers' lookups (`isocodes/cli.py:134-160` and the like) call `find`, `search` and `get_by_former_name`; the package's tests also use `get_former_names_info` and `former_names`. None of these is defined in `isocodes/__init__.py`, so there is nothing to model them against.
- `argparse`, `main`, `print` and `sys.exit` (`isocodes/cli.py:360-523`) are command-line plumbing.
- Case mapping: `.upper()`, `.lower()` and `.title()` on user input use Unicode case mapping. Search.CountryFilter takes the country code after `.upper()` has been applied.
- Assertions about the shipped data (code shapes, dates, particular countries) are about files outside the code.
- Timing and packaging checks do not concern the code's behaviour.

## Findings

| source | as written | input that shows it | evidently intended | confidence | as-written member | corrected member |
|---|---|---|---|---|---|---|
| isocodes/cli.py:171-172 | `--limit` is parsed with `type=int`, and `if args.limit and len(results) > args.limit: results = results[: args.limit]` lets a negative limit through. `results[:-k]` then drops the last `k` results. The same two lines recur in every `search_*` handler. | `--limit -1` with two results prints one. | A limit caps the count from above, so a non-positive limit leaves the results alone. | medium, not executed | Search.NegativeLimitDropsResults | Search.Limit |
