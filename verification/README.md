# miniprogram-ci report normaliser, modelled in Dafny

miniprogram-ci runs WeChat's mini-program analyser (`miniprogram-ci
check-code-quality`) over a source tree and turns the analyser's JSON report
into the issue list a code-scanning pipeline reads. This project models the
part of the tool that has logic in it: the normaliser `data_handle`, which
takes the report's rule-violation records and the list of enabled rule names
and returns uniform issue records. It also models the three fixed groups of
rule names the normaliser dispatches on.

Layout:

- `json.dfy` (module `Json`): decoded JSON values, Python truthiness,
  `dict.get`, and what a `for` loop visits.
- `rules.dfy` (module `Rules`): the three rule-name groups, and a lookup table
  from a rule name to its group.
- `decimal.dfy` (module `Decimal`): the `%.2f` rendering of the application
  size in megabytes.
- `normalizer.dfy` (module `Normalizer`): the records, `Handle` (one pass of
  the loop body), `Normalize` (the whole function) and `DataHandle` (the loop
  as written, appending issue by issue, proved equal to `Normalize`).
- `properties.dfy` (module `Properties`): what the normaliser promises,
  record by record and for a whole report.
- `scenarios.dfy` (module `Scenarios`): concrete reports and their exact
  output.

Modelling choices:

- A missing `detail` and an explicit `null` are both `Null`, because
  `item.get('detail', None)` does not tell them apart.
- `success` is a JSON value and the filter uses its truth value, because
  the code tests `if success:`, so any JSON value is accepted.
- `detail_msg` is empty whenever `detail` is falsy: `0`, `false`, `""`, `[]`
  and `{}` all count as "no detail", not only a missing one, because
  `detail_msg` follows `if detail`.
- An issue's `path` is a JSON value, because fanned-out issues copy the
  report's list entries as they are.
- Python's `str()` of a `detail` value (main.py:99) is a parameter
  `show: Value -> string`. All results hold for every `show`.
- The records whose handling would make the source raise are excluded by the
  precondition `Admissible`. These are a truthy `__APP__` that `int()` cannot
  convert, and `files` or `comps` values that cannot be iterated. Records the
  two filters drop are never constrained.

## Model

| member | source | states |
|---|---|---|
| Json.Truthy | main.py:94-99 | a value is false exactly when it is `None`, `False`, `0`, `""`, `[]` or `{}` |
| Json.Elements | main.py:119-126 | a `for` loop over a list visits its entries in order, and over a string visits one-character strings, one per character in order |
| Rules.CategoryOf | main.py:15-17 | a rule name is in the package-size, contains-other or contains-unused group exactly when it is in that list; every other name is generic, so no name is in two groups |
| Normalizer.DetailMsg | main.py:98-99 | the detail line is empty exactly when `detail` is missing or falsy |
| Normalizer.ToInt | main.py:110 | `int()` keeps an int, turns `True` into 1 and `False` into 0, and gives a nonzero number exactly for a truthy value |
| Normalizer.ShortMessage | main.py:118 | the message without a detail line is "Text: ", the text, a line break, "DocURL: " and the URL, in that order |
| Normalizer.FullMessage | main.py:111 | the message with a detail line is the short message, a line break, then the detail line |
| Normalizer.FanOut | main.py:119-134 | one issue per path, in path order, each carrying its path and otherwise equal to the template |
| Normalizer.Admissible | main.py:106-126 | the precondition never constrains a record the filters drop, a record of a generic or contains-unused rule, a package-size record without a truthy `__APP__`, or a contains-other record whose `detail` is not a mapping |
| Normalizer.Handle | main.py:89-137 | every issue of a record has line 0, column 0, no refs and the record's name as its rule; a record yields an issue only if its rule is enabled and `success` is falsy |
| Normalizer.Normalize | main.py:87-138 | every issue of a report has line 0, column 0, no refs and a rule from the enabled list |
| Normalizer.NormalizeSnoc | main.py:88-89 | the output for a report extended by one record is the old output followed by that record's issues |
| Normalizer.DataHandle | main.py:87-138 | the loop, appending issue by issue, returns exactly the in-order concatenation of every record's issues |
| Normalizer.AppendIssues | main.py:90-95 | one pass of the loop body, after the two filters, appends exactly the record's issues to the result so far |
| Normalizer.AppendReported | main.py:96-137 | for a record that passed both filters, the branches of the loop body append exactly that record's issues |
| Normalizer.AppendCopies | main.py:119-126 | the fan-out loop appends one copy of the issue per path, in path order, each differing from the template only in its path |
| Decimal.DecimalRoundTrip | main.py:110 | reading back the decimal numeral of a natural number gives the number |
| Decimal.RoundHalfEven | main.py:110 | the result is an integer nearest to num / den, and the even one when two are equally near |
| Decimal.Megabytes | main.py:110 | the `%.2f` text of n / 1024 / 1024 reads back as n / 2^20 rounded to hundredths (ties to even), starts with '-' exactly when n is negative, and its integer part has no leading zero |
| Decimal.CanonicalNumeral | main.py:110 | a digit string without a leading zero is the decimal numeral of its own value |
| Decimal.FixedTextUnique | main.py:110 | two texts of the form "[-]digits.dd" with the same sign and value and no leading zero are equal, so the contract of `Megabytes` determines its text |
| Properties.DisabledRuleYieldsNothing | main.py:90-92 | a record whose rule is not enabled yields no issue, whatever its `success` and `detail` |
| Properties.SucceededYieldsNothing | main.py:93-95 | a record whose `success` is truthy yields no issue |
| Properties.PackageSizeYieldsOneSummary | main.py:106-113 | a reported package-size record yields exactly one summary-path issue; its detail line is the APP size text when `detail` is a mapping with a truthy `__APP__`, and the plain detail line otherwise |
| Properties.ContainsOtherFansOut | main.py:114-127 | a reported contains-other record with a mapping `detail` yields one issue per `files` entry then one per `comps` entry, paths in that order, all with the message without a detail line |
| Properties.ContainsOtherEmptyYieldsNothing | main.py:115-127 | a contains-other mapping whose `files` and `comps` are missing or empty yields no issue |
| Properties.ContainsUnusedFansOut | main.py:128-135 | a reported contains-unused record with a list `detail` yields one issue per entry, paths in list order, all with the message without a detail line |
| Properties.FallbackYieldsOneSummary | main.py:96-137 | a reported record of a generic rule, or of a contains-other or contains-unused rule whose `detail` has the wrong shape, yields exactly one summary-path issue whose message carries the detail line, which is empty exactly when `detail` is falsy |
| Properties.HandleCount | main.py:106-137 | the number of issues of a record equals the count read off its rule group and `detail` shape |
| Normalizer.NormalizeAppend | main.py:88-89 | normalising two reports back to back gives the two outputs back to back |
| Properties.NormalizeInOrder | main.py:88-138 | a record's issues follow those of every earlier record and precede those of every later one |
| Properties.NormalizeCount | main.py:88-138 | the number of issues of a report is the sum of the records' predicted counts |
| Properties.NoRulesNoIssues | main.py:90-92 | with no enabled rule the output is empty |
| Properties.IssuesComeFromReportedRecords | main.py:90-105 | every issue names the rule of some record of the report that passed both filters |
| Properties.OnlyKeptRecordsMatter | main.py:89-95 | removing the records the two filters drop leaves the output unchanged |
| Properties.RulesActAsSet | main.py:91 | two rule lists with the same members give the same output |
| Scenarios.WholeMegabytes | main.py:110 | 1 MiB prints as "1.00" and 2 MiB as "2.00" |
| Scenarios.HalfwayRoundsToEven | main.py:110 | 131072 bytes (0.125 MB) prints as "0.12" |
| Scenarios.NegativeZero | main.py:110 | a byte count of -1 prints as "-0.00" |
| Scenarios.PackageSizeReport | main.py:106-112 | a failed package-size check reporting 1 MiB yields one summary issue ending with "Detail: APP Size = 1.00M" |
| Scenarios.ContainsOtherReport | main.py:114-127 | files `a.js`, `b.js` and component `c` give three issues with those paths, in that order |
| Scenarios.MalformedUnusedReport | main.py:128-137 | a contains-unused record whose `detail` is a mapping yields exactly one summary issue |

## Left out

- `MiniprogramCI.run` and `__get_task_params` (main.py:20-85): environment variables, file reads and writes, JSON parsing and dumping, and the blocking analyser subprocess. They are I/O around an external program. The check `if outputs_data:` before the call is left out with them.
- Python's `str()` of a `detail` value (main.py:99): a parameter of the model, because it depends on Python's repr of nested values and on mapping key order.
- JSON floating-point numbers: the JSON value type has no floats, so a float `detail`, `__APP__` or `success` is not represented.
- Missing required keys `name`, `success`, `text` or `docURL` (a KeyError in the source): the record type always has them. `text` and `docURL` are strings, so `%s` prints them as they are.
- Normalizer.Handle: `int()` of a string `__APP__` (such as `"1048576"`) is excluded by its precondition; only ints and bools are converted.
- Normalizer.Handle: a `files` or `comps` value that is a mapping is excluded by its precondition. Python would iterate the mapping's keys, and the model's `map` keeps no key order. Values that make Python raise (`null`, a number, a bool) are excluded too. Strings are iterated character by character, as Python does.
- Decimal.Megabytes: it renders n / 2^20 exactly. This matches Python's float arithmetic only for byte counts below 2^53 in magnitude; above that, `int(app_size)/1024` is rounded first. Once n / 1024 exceeds the float range (|n| above about 1.8e311), Python raises OverflowError at main.py:110; the model does not represent that error, and Normalizer.Handle still returns a message there.
- A report whose top level is not a list of records: the input is a sequence of records.
- The shallow `copy.copy` of fanned-out issues shares one `refs` list. Nothing mutates it afterwards, so the sharing cannot be observed.
