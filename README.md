# Run records of paddles, modelled in Dafny

paddles keeps one record per teuthology test run (`paddles/models/runs.py`). When a
run is created from its name, alone, the record works out three values from that
name: when the run was scheduled, which suite it ran and which branch it tested.
Run names look like `user-timestamp-suite-branch-flavor-machine_type`. Suites and
branches may contain `-` themselves, so the name is matched against three regular
expressions in turn:

1. a pattern whose suite group is an alternation of a fixed catalog of suite
   names, with the machine type at the end;
2. the same pattern without the machine type;
3. a generic backup pattern.

The first pattern that matches wins. Its `suite` and `branch` groups are stripped
of spaces and dashes. When nothing matches, the record falls back to its defaults.
A run also summarises its jobs: it counts their statuses, reports `running` or
`finished` in its JSON form, indexes jobs by description, and reports when it was
last updated.

The project has eight modules:

- `Wrappers` (`wrappers.dfy`): `Option`.
- `Jobs` (`jobs.dfy`): the part of a job a run reads.
    - Its status is `Option<string>`; `None` is a missing status.
    - It also has a description and an update time.
    - `Instant` stands for a datetime.
- `NameRegexes` (`name_regexes.dfy`): builds the regex text.
    - Covers `suite_names`, `get_name_regexes` and the backup regex text.
    - `str.format` is modelled for templates whose only fields are `{time}` and `{suites}`.
    - `'|'.join` is modelled together with the split that reads the alternation back.
- `Timestamps` (`timestamps.dfy`): `timestamp_regex`, as a table of six digit
  fields with their separators.
    - A deterministic reading takes the run of digits in each field.
    - It is proved to find exactly the spans the regex can match.
    - A match yields six integers.
- `NameMatch` (`name_match.dfy`): what `re.match` does with each of the three
  patterns.
    - The model is not a general regex engine.
    - A match is a *choice*: the position of the `-` after the leading `.*`, the
      suite (an alternative's index, or the backup suite's length) and the
      branch length.
    - Each pattern has a declarative predicate saying which choices succeed.
    - Each pattern has a search that walks the choices in Python's backtracking order:
      longest leading `.*` first, then catalog order (or the longest backup suite),
      then the longest branch. The trailing lazy `-.*?` groups only decide success.
    - Each search is proved to return the first choice in that order that its
      predicate accepts.
    - `.` matches any character except a newline.
- `NameShapes` (`name_shapes.dfy`): the three patterns on run names of the
  documented shape, `user-timestamp-f1-f2-...`.
    - Each field is non-empty, has no `-`, space or newline, and does not start with a digit.
    - On such a name the leading `.*-` can stop only after the user.
    - Every catalog suite that matches is a run of whole leading fields, and so is every branch.
    - This decides which suite and branch the backtracking settles on.
- `Results` (`results.dfy`): `get_results`.
    - `list.count` is modelled and proved equal to the multiplicity in the multiset of statuses.
- `Runs` (`runs.dfy`): `str.strip(' -')`, `_parse_name`, and the `Run` class.
    - The class has fields `name`, `posted`, `scheduled`, `suite`, `branch`, and
      `jobs`, a sequence in job-id order.
    - Its members are the constructor, `Json` (`__json__`), `Updated` (the
      `updated` property as written), `LatestUpdated` (what it evidently means) and the method `GetJobsByDescription` with its loop.

Parameters stand in for the clock and for `strptime`:

- `datetime.utcnow()` is the constructor's `posted` argument.
- `datetime.strptime(text, '%Y-%m-%d_%H:%M:%S')` is a function argument
  `string -> Option<Instant>`. `None` stands for its `ValueError`.

Two points where the code says something other than what its names suggest;
the model follows the code:

- `__json__` takes its `status` from `results['running']` (paddles/models/runs.py:103):
  `running` exactly when some job's status is the string `'running'`. The `status`
  property (paddles/models/runs.py:170-175) instead counts the jobs whose `success`
  is still unset. The two can differ.
- The five status counts of `get_results` are not a partition of the jobs. They add
  up to at most `total`, and to exactly `total` only when every status is `pass`,
  `running`, `fail`, `dead` or missing (`Results.ResultsSum`).

## Model

| member | source | states |
|---|---|---|
| `NameRegexes.GetNameRegexes` | paddles/models/runs.py:47-63 | exactly two patterns; the first is the second followed by `-.*?` (machine type first); the second is the no-machine-type template with the timestamp regex in place of `{time}` and `(` + the suites joined with vertical bars in catalog order + `)` in place of `{suites}` |
| `NameRegexes.FormatTemplates` | paddles/models/runs.py:58-62 | both templates are valid `str.format` templates for fields `time` and `suites`; formatting keeps their literal text and replaces the two fields; the machine-type template formats to the other's result plus `-.*?` |
| `NameRegexes.FormatConcat` | paddles/models/runs.py:60-62 | formatting a concatenation of two templates is the concatenation of their formattings |
| `NameRegexes.FormatBraceFree` | paddles/models/runs.py:59 | text without braces is a template that formats to itself |
| `NameRegexes.SplitJoin` | paddles/models/runs.py:61 | splitting at vertical bars the vertical-bar join of a non-empty list of names without vertical bars gives the names back in order |
| `NameRegexes.CatalogAlternatives` | paddles/models/runs.py:61 | the alternation built from a catalog of plain names tries exactly those names, in catalog order |
| `NameRegexes.SuiteNamesPlain` | paddles/models/runs.py:11-44 | every name in `suite_names` is non-empty, contains no vertical bar and neither starts nor ends with a space or `-` |
| `Timestamps.ReadFieldsIsSpan` | paddles/models/runs.py:67-68 | the digit-run reading of the timestamp fields ends at `e` if and only if the regex's fields (any digit count between the bounds) can match exactly up to `e` |
| `Timestamps.ReadFieldsBounds` | paddles/models/runs.py:67-68 | each value read has no more digits than its field's upper bound allows |
| `Timestamps.TimestampBounds` | paddles/models/runs.py:67-68 | a matched timestamp has a year below 10000 and month, day, hour, minute and second below 100 |
| `NameMatch.LongestBranch` | paddles/models/runs.py:59 | the greedy branch `.*` takes the longest length after which the trailing groups match, or none exists |
| `NameMatch.FirstAlternative` | paddles/models/runs.py:61-62 | the suite alternation takes the first alternative, in catalog order, that lets the rest of the pattern match, with its longest branch |
| `NameMatch.MatchCatalog` | paddles/models/runs.py:117-118 | `re.match` of a catalog pattern returns the first successful choice in backtracking order (longest prefix, earliest alternative, longest branch), and fails only when no choice succeeds |
| `NameMatch.LongestSuite` | paddles/models/runs.py:71 | the backup pattern's greedy suite `.*` takes the longest suite that lets the rest match, with its longest branch |
| `NameMatch.MatchBackup` | paddles/models/runs.py:119 | `re.match` of the backup pattern returns the first successful choice (longest prefix, longest suite, longest branch), and fails only when no choice succeeds |
| `NameMatch.MatchName` | paddles/models/runs.py:117-119 | the or-chain: a later pattern is used only when every earlier pattern fails for every choice; the result's groups are those of its pattern's first match; no result only when all three fail |
| `NameMatch.MatchNameNone` | paddles/models/runs.py:117-120 | the or-chain yields no match if and only if none of the three patterns matches |
| `NameMatch.MachineTypeImpliesNoMachineType` | paddles/models/runs.py:59-60 | every choice that matches the machine-type pattern also matches the pattern without the machine type |
| `NameMatch.FirstCatalogMatchUnique` | paddles/models/runs.py:117-118 | the first match of a catalog pattern is unique |
| `NameMatch.FirstBackupMatchUnique` | paddles/models/runs.py:119 | the first match of the backup pattern is unique |
| `NameMatch.GroupsAt` | paddles/models/runs.py:121 | the `scheduled` group followed by its `-` is the text from the prefix's `-` to the timestamp's end; read on its own it is one whole timestamp match whose six integers are the group's `timestamp`; `suite` and `branch` are the substrings after it |
| `NameMatch.ScheduledGroup` | paddles/models/runs.py:67-68 | the text a name's prefix and timestamp group cover, read on its own, gives the same six integers |
| `Timestamps.ReadFieldsShift` | paddles/models/runs.py:67-68 | the reading of the timestamp fields depends only on the text the match spans |
| `Timestamps.FieldsInName` | paddles/models/runs.py:67-68 | the text of fields matched inside a name up to their closing `-`, read on its own with a `-` after it, gives the same values |
| `Timestamps.TimestampInName` | paddles/models/runs.py:67-68 | a timestamp matched inside a name, read on its own as a `scheduled` group, gives the same six integers |
| `Timestamps.TimestampReadIsSpan` | paddles/models/runs.py:67-68 | the timestamp regex matches from a position in at most one way: the reading of `timestamp_regex`'s fields ends at `e` if and only if the regex can match exactly up to `e` |
| `NameMatch.MatchNameCorrected` | paddles/models/runs.py:47-63 | the two catalog patterns tried together, as the docstring intends: per prefix and catalog alternative, the machine-type pattern before the one without; its match is the first in that order, and the backup pattern is used only when neither catalog pattern matches at all |
| `NameMatch.MachineTypeBranch` | paddles/models/runs.py:59-60 | after a prefix and alternative that match without the machine type, the longest branch that lets three trailing groups match, or none exists |
| `NameShapes.PrefixOfName` | paddles/models/runs.py:59-71 | on a run name of the documented shape, the leading `.*-` of every pattern can stop only at the `-` after the user |
| `NameShapes.CatalogMatchIsWords` | paddles/models/runs.py:59-62 | every catalog match of such a name takes a run of whole leading fields as suite and the whole fields after it as branch, leaves at least as many fields as trailing groups, and its groups are that timestamp, suite and branch |
| `NameShapes.WordsCatalogMatch` | paddles/models/runs.py:59-62 | conversely, every split into a catalog suite of whole fields and a branch of whole fields that leaves enough trailing fields is a catalog match |
| `NameShapes.MachineTypeNameParsed` | paddles/models/runs.py:117-118 | as written: for a name with three trailing fields, when the intended suite is the first catalog name among those that spell its leading fields, `_parse_name`'s first pattern returns exactly that suite and branch |
| `NameShapes.MachineTypeNameParseName` | paddles/models/runs.py:116-129 | for such a name, when `strptime` accepts its timestamp text, `_parse_name` returns the converted time, the suite fields and the branch fields, unchanged by the strip |
| `NameShapes.ShorterSuiteWins` | paddles/models/runs.py:117-118 | as written: for a name with five fields whose first field alone is a catalog name, the machine-type pattern matches with the first field as suite and the second as branch, so a two-field suite such as `upgrade-rados` followed by two trailing fields is never read |
| `NameShapes.CorrectedNameParsed` | paddles/models/runs.py:48-62 | as intended: with three trailing fields, or with two after a one-field branch, when the suite is the first catalog name that spells leading fields, the corrected matcher returns exactly that suite and branch |
| `NameMatch.CatalogSuiteIsAlternative` | paddles/models/runs.py:59-62 | the suite group of a catalog-pattern match is one of the alternatives |
| `Runs.StripStart` | paddles/models/runs.py:126-127 | skipping leading characters stops at the first character that is not a space or `-` |
| `Runs.StripEnd` | paddles/models/runs.py:126-127 | dropping trailing characters stops after the last character that is not a space or `-` |
| `Runs.Strip` | paddles/models/runs.py:126-127 | the result of `strip(' -')` neither starts nor ends with a space or `-` |
| `Runs.StripIsTrim` | paddles/models/runs.py:126-127 | `strip(' -')` returns a slice of its input with only spaces and dashes cut off around it; an empty result means the input was all spaces and dashes |
| `Runs.StripKeepsStripped` | paddles/models/runs.py:126-127 | a string with no space or `-` at either end is unchanged by the strip |
| `Runs.StripIdempotent` | paddles/models/runs.py:126-127 | stripping twice is stripping once |
| `Runs.CatalogAltsAreAlternation` | paddles/models/runs.py:61-62 | the alternatives of the vertical-bar join embedded in both catalog regexes are exactly `suite_names`, in order |
| `Runs.ParseName` | paddles/models/runs.py:116-129 | the empty mapping exactly when no pattern matches; a `ValueError` exactly when the first match's `scheduled` text is rejected by `strptime`; otherwise the converted time and the stripped `suite` and `branch` groups of the first match, which neither start nor end with a space or `-` |
| `Runs.ParsedCatalogSuite` | paddles/models/runs.py:126 | when a catalog pattern matched, the parsed suite is one of `suite_names`, equal to the captured group unchanged by the strip |
| `Runs.Run.constructor` | paddles/models/runs.py:87-93 | sets `name` and `posted` and starts with no jobs; with no match, `scheduled = posted`, `suite = ''`, `branch = ''`; otherwise the three parsed values |
| `Runs.Run.Json` | paddles/models/runs.py:101-114 | `status` is `running` if and only if some job's status is `running` (if and only if `results['running'] > 0`), else `finished`; `jobs_count` is the number of jobs; the other fields are the record's |
| `Runs.Max` | paddles/models/runs.py:147 | `max` is at least both arguments and equal to one of them |
| `Runs.LatestUpdate` | paddles/models/runs.py:144-145 | the greatest job update time, the one `updated` is meant to read: at least every job's and equal to some job's |
| `Runs.Run.Updated` | paddles/models/runs.py:141-147 | as written: with jobs, the update time of the job with the highest id, because `order_by(Job.updated)` sorts after the relationship's `Job.id` ordering; without jobs, the later of `scheduled` and `posted` |
| `Runs.Run.LatestUpdated` | paddles/models/runs.py:141-147 | as evidently intended: with jobs, an update time at least every job's and equal to some job's; without jobs, the later of `scheduled` and `posted` |
| `Runs.UpdatedMissesLatest` | paddles/models/runs.py:144-145 | whenever some job was updated after the job with the highest id, `updated` as written is earlier than the latest update |
| `Runs.UpdatedAgreesWhenOrdered` | paddles/models/runs.py:144-145 | when update times never decrease along job ids, `updated` as written is the latest update |
| `Runs.Run.GetJobsByDescription` | paddles/models/runs.py:134-139 | the keys are exactly the jobs' descriptions, and each maps to the last job, in job order, that carries it |
| `Jobs.Statuses` | paddles/models/runs.py:154 | the list of job statuses has one entry per job, in job order |
| `Results.CountIsMultiplicity` | paddles/models/runs.py:155-159 | `list.count(x)` is the number of occurrences of `x` |
| `Results.GetResults` | paddles/models/runs.py:153-168 | `pass`, `running`, `fail` and `dead` are the numbers of jobs with exactly that status, `unknown` the number with none, `total` the number of jobs |
| `Results.TalliedCountBound` | paddles/models/runs.py:155-159 | the five counts of a status list sum to at most its length, with equality if and only if every status is one of the five |
| `Results.ResultsSum` | paddles/models/runs.py:154-167 | the five counters sum to at most `total`, with equality if and only if every job's status is `pass`, `running`, `fail`, `dead` or missing |
| `Results.RunningCount` | paddles/models/runs.py:156 | the `running` counter is non-zero if and only if some job's status is `running` |

## Findings

| source | as written | input that shows it | evidently intended | confidence | as-written member | corrected member |
|---|---|---|---|---|---|---|
| paddles/models/runs.py:59-62, paddles/models/runs.py:117 | `name_regexes[0]` (three trailing `-.*?` groups) is tried on its own before `name_regexes[1]`; its suite alternation backtracks to a later, shorter catalog name, and `suite_names` lists `upgrade-rados` before `upgrade` | `u-2014-01-06_23:00:02-upgrade-rados-next-testing-basic` gives suite `upgrade` and branch `rados` (`NameShapes.ShorterSuiteWins`) | suite `upgrade-rados`, branch `next`, the split the second pattern finds | medium: the intended reading follows from the docstring and from the catalog's longest-first order; not executed | `NameShapes.ShorterSuiteWins` | `NameShapes.CorrectedNameParsed` |
| paddles/models/runs.py:144 | `self.jobs.order_by(Job.updated)[-1]` on a relationship already ordered by `Job.id` (paddles/models/runs.py:84); the second `order_by` adds a sort key after `Job.id`, so `[-1]` is the job with the highest id | two jobs in id order with `updated` 10 and then 5: `updated` is 5 (`Runs.UpdatedMissesLatest`) | the latest update time, 10 | medium: rests on SQLAlchemy appending `order_by` criteria; not executed | `Runs.Run.Updated` | `Runs.Run.LatestUpdated` |

`Runs.ParseName` and the `Run` constructor keep the or-chain as written
(`NameMatch.MatchName`). `NameMatch.MatchNameCorrected` is what the proof of
the intended reading uses.

## Left out

- Persistence is not modelled: the SQLAlchemy columns, the `relationship`/`backref`,
  lazy dynamic queries and cascade delete. A run's jobs are a sequence in job-id
  order. `get_jobs` is that sequence itself, and `self.jobs.count()` is its length.
- The column widths (`String(512)` for the name, `String(64)` for suite and branch)
  are not modelled. They are the database's concern.
- The `status` property is not modelled. It filters on a `Job.success` field,
  and the job model is not part of this model.
- `__repr__` and its `DetachedInstanceError` fallback are not modelled. They
  depend on ORM session state.
- `href` is not modelled. It needs the web application's configured address.
  Its trailing comma makes it a one-element tuple.
- `datetime.utcnow()` is not modelled; the constructor takes `posted` as an argument.
- Runs.Run.constructor: requires that `strptime` accepts the matched
  timestamp. In the source that `ValueError` propagates out of the constructor
  and no record is made. `Runs.ParseName` does model this outcome, as
  `StrptimeError`.
- The calendar rules of `strptime` are not modelled: four-digit years, month
  and day ranges, and so on. `strptime` is a function argument. The regex
  accepts timestamps that it may still reject.
- Runs.Run.Updated: treats every job as having an update time, and the jobs as
  having distinct ids (so sorting by id, then by update time, keeps job-id
  order). A missing update time and how the database orders missing times are
  not modelled.
- The link between the regex texts of `NameRegexes` and the matchers of
  `NameMatch` is made by reading, not by a regex engine. The matchers are written
  from the pattern texts built by `NameRegexes.GetNameRegexes` and
  `NameRegexes.BackupNameRegex`. Alongside that reading, `Runs.CatalogAltsAreAlternation`
  proves that the alternation's alternatives are exactly `suite_names`.
    - The literal text of `timestamp_regex` and the field table
      `Timestamps.TimestampFields` also correspond by reading.
- Every catalog name is matched as literal text. The names contain only lower-case
  letters and `-`, which have no special meaning outside a character class.
- Regex flags, Unicode character classes beyond `[0-9]`, and `re`'s caching are
  not modelled. The patterns use no flags, so `.` never matches a newline.
- The lemmas of `NameShapes` cover run names whose fields have no space and do
  not start with a digit. Other names are matched by `NameMatch` all the same,
  but which suite and branch they yield is not worked out in closed form.
