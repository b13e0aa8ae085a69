# Festival rules and the daily TeX writer of jyotisha, in Dafny

This project models two parts of the jyotisha panchaanga library.

**Festival rules** (`jyotisha/panchaanga/temporal/festival/rules/__init__.py`)
- A festival rule (`HinduCalendarEvent`) has a timing (`HinduCalendarEventTiming`).
- `from_details` builds a timing and validates its month and anga types against the schema's
  enumerations. `get_kaala` and `get_priority` supply the defaults.
- A rule is filed at a path. The flat layout is `<base>/<id>__info.toml`. The granular layout
  is `relative_event/<anchor>/offset__NN/…`, `description_only/…` or
  `<month type>/<anga type>/MM/AA/…`.
- `get_festival_rules_map` reads the rule files of one directory into a dict keyed by rule
  id. A later file with the same id wins.
- A `RulesRepo` names a directory under the data root and a base URL.
- `RulesCollection.set_rule_dicts` merges the repositories' dicts into `name_to_rule`. After
  each repository it rebuilds the rule tree: a nested dict keyed by the segments of each
  rule's path.
- `get_month_anga_fests` looks up that tree by month type, anga type, month key and anga
  key. An adhika month gets the key `MM.5`. A missing key gives `{}`.
- `get_possibly_relevant_fests` merges, for every anga, the lookup at the month and the
  lookup at month 0. For a tithi on a lunar-month calendar, the month is the tithi's own
  month.
- `transliterate_quoted_text` transliterates the backquoted pieces of a text when the
  backquotes are balanced, and leaves the text alone otherwise.

**The daily TeX writer** (`jyotisha/panchaanga/scripts/write_daily_panchaanga_tex.py`).
The model keeps what this writer decides; the TeX strings and the printing are left out.
- Title: the year, the two samvatsara numbers counted from Prabhava (1568), and the two Kali
  years.
- The loop over the days `1 … MAX_SZ - 2`. Each day gives one row:
  - the yoga and karana that follow the last span seen so far. Python's loop variables stay
    bound across days, and reading them unbound raises an error;
  - the year name, which switches to the second samvatsara from the first day whose sunset
    solar month is Mesha (1);
  - the solar-month end: the previous day's rashi, with the hours counted from the start of
    this day or of the next day;
  - moonrise and moonset, shown as `---` after the next sunrise, and their order;
  - the day's festivals, sorted without duplicates.
- The loop stops after 31 December.

Shared modules:
- `Wrappers`: `Option` and `Result`.
- `Strings`: Python's string built-ins as used here. These are `%02d`, `split`/`join`,
  `strip`, `replace`, ASCII `lower`, string ordering and `sorted(set(…))`.
- `OrderedDicts`: a Python `dict` with string keys, in insertion order, with `d[k] = v`,
  `d.get(k)` and `d.update(e)`.

Python's `%` floors. For the positive divisors used here it agrees with Dafny's Euclidean
`%`, so `(year - 1568) % 60 + 1` is written as in the source.

## Model

| member | source | states |
|---|---|---|
| FestivalEvents.MonthTypeNames | jyotisha/panchaanga/temporal/festival/rules/__init__.py:37-40 | a month type string is accepted by schema validation exactly when it is one of the enumerated names |
| FestivalEvents.AngaTypeNames | jyotisha/panchaanga/temporal/festival/rules/__init__.py:46-49 | an anga type string is accepted exactly when it is one of the enumerated names |
| FestivalEvents.FromDetails | jyotisha/panchaanga/temporal/festival/rules/__init__.py:78-88 | the timing is built exactly when both type strings validate; it then carries the given month, anga, kaala and year start |
| FestivalEvents.FromDetailsDefaults | jyotisha/panchaanga/temporal/festival/rules/__init__.py:90-94 | a timing from `from_details` has kaala "sunrise" when none is given and priority "puurvaviddha", and no anchor or offset |
| FestivalEvents.PathJoin | jyotisha/panchaanga/temporal/festival/rules/__init__.py:239 | `os.path.join` returns an absolute second part unchanged; otherwise the result starts with the first part and ends with the second |
| FestivalEvents.NewRulesRepo | jyotisha/panchaanga/temporal/festival/rules/__init__.py:235-239 | the repo keeps name and path; its base URL starts with the given base and ends with the name |
| FestivalEvents.DefaultRulesRepo | jyotisha/panchaanga/temporal/festival/rules/__init__.py:235-239 | `RulesRepo(name)` with the default arguments has no explicit path, and its base URL starts with the canonical repository URL and ends with the name |
| FestivalEvents.GetPath | jyotisha/panchaanga/temporal/festival/rules/__init__.py:241-243 | an explicit path is returned as it is; without one, the result starts with the data root and ends with the name |
| FestivalEvents.RepoDirectory | jyotisha/panchaanga/temporal/festival/rules/__init__.py:241-243 | without a path, the directory read is the data root joined with the name; with an absolute path, it is that path |
| FestivalEvents.SanitizeId | jyotisha/panchaanga/temporal/festival/rules/__init__.py:156 | a sanitised id has no '/' and no brace at either end |
| FestivalEvents.SanitizeIdIdempotent | jyotisha/panchaanga/temporal/festival/rules/__init__.py:164 | sanitising twice gives the same as sanitising once |
| FestivalEvents.SanitizeIdPlain | jyotisha/panchaanga/temporal/festival/rules/__init__.py:164 | an id without '/' and without outer braces is left unchanged |
| FestivalEvents.AnchorDirName | jyotisha/panchaanga/temporal/festival/rules/__init__.py:162 | the anchor directory name has no '/' and is non-empty for a non-empty anchor |
| FestivalEvents.StorageFileNameFlat | jyotisha/panchaanga/temporal/festival/rules/__init__.py:153-157 | the flat name is the base, '/', and then the file name: the sanitised id followed by `__info.toml`, with no further '/' |
| FestivalEvents.StorageFileNameShape | jyotisha/panchaanga/temporal/festival/rules/__init__.py:159-187 | for a non-http base, the granular name starts with the base and '/' and ends with the sanitised id and `__info.toml` |
| FestivalEvents.BranchOf | jyotisha/panchaanga/temporal/festival/rules/__init__.py:160-173 | only a rule with a timing is filed as relative or month/anga, a month/anga rule has a month number, and a rule without timing is description-only |
| FestivalEvents.AnchorBranchWins | jyotisha/panchaanga/temporal/festival/rules/__init__.py:160-165 | a rule with an anchor is filed under `relative_event`, whatever its month and anga fields hold |
| FestivalEvents.PathParts | jyotisha/panchaanga/temporal/festival/rules/__init__.py:160-184 | a formatted path has at least two segments and ends with the file name, the sanitised id followed by `__info.toml`; a failure is never the missing timing |
| FestivalEvents.StorageFileNameGranular | jyotisha/panchaanga/temporal/festival/rules/__init__.py:159-187 | as evidently intended, the name is formatted exactly when the path parts are; it starts with the base and '/', and its failure is that of the parts and never the missing timing |
| FestivalEvents.StorageFileNameGranularAsWritten | jyotisha/panchaanga/temporal/festival/rules/__init__.py:160-166 | as written, the name fails with the missing timing exactly when the rule has no timing, and is formatted exactly when there is a timing and the parts are formatted |
| FestivalEvents.PathPartsErrors | jyotisha/panchaanga/temporal/festival/rules/__init__.py:160-180 | the path fails on a missing offset, on tags that are not a list and on a missing anga number, each exactly in its own branch; with the corrected branch order a missing timing never fails |
| FestivalEvents.PathPartsWellFormed | jyotisha/panchaanga/temporal/festival/rules/__init__.py:160-184 | every path has at least two slash-free segments, non-empty ones but for an empty anchor id, and the sanitised id with `__info.toml` as last segment |
| FestivalEvents.NoTimingCounterexample | jyotisha/panchaanga/temporal/festival/rules/__init__.py:160-166 | as written, a rule without timing fails, although the intended path is `/description_only/x__info.toml` |
| FestivalEvents.AsWrittenAgreesWithTiming | jyotisha/panchaanga/temporal/festival/rules/__init__.py:160-187 | for every rule with a timing, the as-written and the corrected file names agree |
| Strings.FormatInt02 | jyotisha/panchaanga/temporal/festival/rules/__init__.py:162 | `%02d` gives at least two characters, digits with an optional leading '-', and exactly two for 0..99 |
| Strings.FormatInt02RoundTrip | jyotisha/panchaanga/temporal/festival/rules/__init__.py:174 | parsing `%02d` of n gives back n |
| Strings.FormatInt02Injective | jyotisha/panchaanga/temporal/festival/rules/__init__.py:174 | distinct numbers get distinct two-digit keys |
| Strings.Strip | jyotisha/panchaanga/temporal/festival/rules/__init__.py:156 | `strip` leaves no stripped character at either end and adds no character |
| Strings.StripTrims | jyotisha/panchaanga/temporal/festival/rules/__init__.py:156 | `strip` returns a slice of the text, and everything cut off at either end is a stripped character |
| Strings.StripUnchanged | jyotisha/panchaanga/temporal/festival/rules/__init__.py:156 | a string with no stripped character at its ends is unchanged |
| Strings.ReplaceChar | jyotisha/panchaanga/temporal/festival/rules/__init__.py:156 | replacing a character by a text without it removes it, and adds nothing from outside the text and the replacement |
| Strings.ReplaceCharConcat | jyotisha/panchaanga/temporal/festival/rules/__init__.py:156 | `replace` of a character works piecewise over a concatenation, so the order of the text is kept |
| Strings.ReplaceCharOne | jyotisha/panchaanga/temporal/festival/rules/__init__.py:156 | on one character, `replace` gives the replacement when it is the replaced character, and the character otherwise |
| Strings.Split | jyotisha/panchaanga/temporal/festival/rules/__init__.py:16 | `split` yields at least one piece, none containing the separator |
| Strings.SplitCount | jyotisha/panchaanga/temporal/festival/rules/__init__.py:16-18 | `split` yields one more piece than there are separators |
| Strings.SplitJoinRoundTrip | jyotisha/panchaanga/temporal/festival/rules/__init__.py:16-23 | joining the pieces of a split with the separator gives back the text |
| Strings.JoinSplitRoundTrip | jyotisha/panchaanga/temporal/festival/rules/__init__.py:167 | splitting a join of separator-free pieces gives back the pieces |
| Strings.ConcatSplit | jyotisha/panchaanga/temporal/festival/rules/__init__.py:23 | `''.join(text.split(c))` is the text with every c removed |
| Strings.ReplaceAllAround | jyotisha/panchaanga/temporal/festival/rules/__init__.py:283 | `replace` of a pattern without c works piecewise on either side of a c |
| Strings.DeleteAllAppended | jyotisha/panchaanga/temporal/festival/rules/__init__.py:283 | deleting an unbordered pattern from x followed by the pattern equals deleting it from x |
| Strings.LowerAscii | jyotisha/panchaanga/temporal/festival/rules/__init__.py:295 | `lower` keeps the length and lowers each character |
| Strings.LowerAsciiIdentity | jyotisha/panchaanga/temporal/festival/rules/__init__.py:295 | a string without upper-case letters is its own `lower` |
| Strings.LessTransitive | jyotisha/panchaanga/scripts/write_daily_panchaanga_tex.py:297 | Python's string order is transitive |
| Strings.LessTotal | jyotisha/panchaanga/scripts/write_daily_panchaanga_tex.py:297 | Python's string order is total |
| Strings.SortedUnique | jyotisha/panchaanga/scripts/write_daily_panchaanga_tex.py:297 | `sorted(set(xs))` is strictly increasing and holds exactly the elements of xs |
| Strings.StrictlySortedUnique | jyotisha/panchaanga/scripts/write_daily_panchaanga_tex.py:297 | two strictly sorted lists with the same elements are equal, so `sorted(set(xs))` is determined by the set |
| OrderedDicts.UpdateGet | jyotisha/panchaanga/temporal/festival/rules/__init__.py:279-280 | after `d.update(e)` a key holds e's value when e has it, and d's otherwise |
| OrderedDicts.UpdateKeys | jyotisha/panchaanga/temporal/festival/rules/__init__.py:279-280 | `update` keeps d's keys in place and appends e's new keys |
| OrderedDicts.UpdateAllHas | jyotisha/panchaanga/temporal/festival/rules/__init__.py:278-280 | after a series of updates a key is present exactly when it was already there or one of the dicts has it |
| OrderedDicts.UpdateAllUntouched | jyotisha/panchaanga/temporal/festival/rules/__init__.py:278-280 | a key that no dict has keeps its value |
| OrderedDicts.UpdateAllGet | jyotisha/panchaanga/temporal/festival/rules/__init__.py:278-280 | a key that some dict has ends with the value of the last dict that has it |
| OrderedDicts.UpdateAllEntries | jyotisha/panchaanga/temporal/festival/rules/__init__.py:278-280 | every entry after the updates comes from the start dict or from one of the dicts |
| OrderedDicts.GetInValues | jyotisha/panchaanga/temporal/festival/rules/__init__.py:283 | a value that `d.get(k)` returns is among `d.values()`, which is what the tree is built from |
| OrderedDicts.PutValid | jyotisha/panchaanga/temporal/festival/rules/__init__.py:215 | `d[k] = v` keeps the keys distinct |
| OrderedDicts.PutEntries | jyotisha/panchaanga/temporal/festival/rules/__init__.py:215 | an entry of `d[k] = v` is the new one or an entry of d |
| RulesCollections.TransliterateQuotedText | jyotisha/panchaanga/temporal/festival/rules/__init__.py:14-26 | the loop's result equals the value-level definition: odd pieces are transliterated and joined when the split has an odd number of pieces greater than one |
| RulesCollections.TransliterateOdd | jyotisha/panchaanga/temporal/festival/rules/__init__.py:19-21 | exactly the odd-numbered pieces are transliterated; the count of pieces is kept |
| RulesCollections.UnquotedUnchanged | jyotisha/panchaanga/temporal/festival/rules/__init__.py:16-17 | a text without backquotes is returned unchanged |
| RulesCollections.UnmatchedUnchanged | jyotisha/panchaanga/temporal/festival/rules/__init__.py:18-25 | with an odd number of backquotes the text is returned unchanged |
| RulesCollections.MatchedQuotesRemoved | jyotisha/panchaanga/temporal/festival/rules/__init__.py:18-23 | with balanced backquotes, and a transliterator that adds none, no backquote is left |
| RulesCollections.MatchedIdentity | jyotisha/panchaanga/temporal/festival/rules/__init__.py:18-23 | with balanced backquotes and the identity transliterator the result is the text with the backquotes removed |
| RulesCollections.FestivalRulesMap | jyotisha/panchaanga/temporal/festival/rules/__init__.py:205-216 | the loop's dict equals the value-level rules map of the sorted files |
| RulesCollections.RulesMapOfLast | jyotisha/panchaanga/temporal/festival/rules/__init__.py:210-215 | an id maps to the rule of the last file with that id, stamped with its path and repo |
| RulesCollections.RulesMapOfAbsent | jyotisha/panchaanga/temporal/festival/rules/__init__.py:207-215 | an id that no file has is absent, including when there are no files |
| RulesCollections.RulesMapOfEntries | jyotisha/panchaanga/temporal/festival/rules/__init__.py:212-215 | each entry is keyed by its rule's id, carries the repo and a path, and is one of the stamped files |
| RulesCollections.RulesMapOfValid | jyotisha/panchaanga/temporal/festival/rules/__init__.py:215 | the rules map has distinct keys |
| RulesCollections.LoadSucceeded | jyotisha/panchaanga/temporal/festival/rules/__init__.py:277-283 | when nothing is raised, the rules are the merge of all the dicts and, if there is any repository, the tree is built from their values |
| RulesCollections.LoadFailed | jyotisha/panchaanga/temporal/festival/rules/__init__.py:277-283 | when the tree builder raises, it does so at some repository, with the rules merged up to that repository |
| RulesCollections.FirstFailure | jyotisha/panchaanga/temporal/festival/rules/__init__.py:277-283 | an error comes from the first repository whose rebuild raises; nothing before it failed and nothing after it runs |
| RulesCollections.LoadStopped | jyotisha/panchaanga/temporal/festival/rules/__init__.py:277-283 | once an error occurs, the later repositories do not change the outcome |
| RulesCollections.LoadRaisesOnNoTiming | jyotisha/panchaanga/temporal/festival/rules/__init__.py:277-283 | a dict with a rule without timing makes the load raise, because the path function as written is called on it while the tree is built |
| RulesCollections.LoadRaisesNoTiming | jyotisha/panchaanga/temporal/festival/rules/__init__.py:277-283 | when every rule has a path but for some without timing, what the load raises is the missing timing |
| RulesCollections.LoadRaisesOnRuleWithoutTiming | jyotisha/panchaanga/temporal/festival/rules/__init__.py:277-283 | a repository holding a rule without timing makes `set_rule_dicts` raise |
| RulesCollections.MergedRule | jyotisha/panchaanga/temporal/festival/rules/__init__.py:279-280 | a merged id holds the rule of the last repository that has it |
| RulesCollections.MergedEntries | jyotisha/panchaanga/temporal/festival/rules/__init__.py:279-280 | every merged rule is keyed by its id, has a path, and comes from one of the repositories |
| RulesCollections.RulesCollection.constructor | jyotisha/panchaanga/temporal/festival/rules/__init__.py:250-254 | the collection starts with its repos, an empty `name_to_rule` and no tree |
| RulesCollections.RulesCollection.SetRuleDicts | jyotisha/panchaanga/temporal/festival/rules/__init__.py:277-283 | the new `name_to_rule`, tree and raised error are those of the value-level load from the old fields, which raises on a rule without timing (RulesCollections.LoadRaisesOnRuleWithoutTiming) |
| RulesCollections.RulesCollection.GetMonthAngaFests | jyotisha/panchaanga/temporal/festival/rules/__init__.py:285-297 | the lookup fails exactly when no tree has been built |
| RulesCollections.RulesCollection.GetPossiblyRelevantFests | jyotisha/panchaanga/temporal/festival/rules/__init__.py:299-307 | the loop's result equals the value-level relevant-fests merge over the current tree |
| RulesCollections.NewRulesCollection | jyotisha/panchaanga/temporal/festival/rules/__init__.py:250-255 | constructing gives the loaded collection, or exactly the error `set_rule_dicts` raised, which includes the missing timing of a rule without one |
| RulesCollections.LoadedLookupSound | jyotisha/panchaanga/temporal/festival/rules/__init__.py:250-297 | a rule found by a lookup in a loaded collection is in `name_to_rule` under its own id, from one of the repos, and is a month/anga rule with the looked-up anga number |
| RulesCollections.GatherPair | jyotisha/panchaanga/temporal/festival/rules/__init__.py:305-306 | one anga's two lookups are merged into the result in the order month, then 0 |
| RuleTree.NonEmptySegmentsConcat | jyotisha/panchaanga/temporal/festival/rules/__init__.py:283 | dropping empty path segments works piecewise over a concatenation |
| RuleTree.MakeTreeValid | jyotisha/panchaanga/temporal/festival/rules/__init__.py:283 | every leaf dict of a built tree has distinct keys |
| RuleTree.MakeTreeGet | jyotisha/panchaanga/temporal/festival/rules/__init__.py:283 | a directory and leaf of the tree hold the last rule filed there |
| RuleTree.InsertGet | jyotisha/panchaanga/temporal/festival/rules/__init__.py:283 | filing a rule sets its own leaf and changes no other |
| RuleTree.DeleteInfoJoin | jyotisha/panchaanga/temporal/festival/rules/__init__.py:283 | removing `__info.toml` from a joined path removes it from each segment |
| RuleTree.TreePath | jyotisha/panchaanga/temporal/festival/rules/__init__.py:283 | the `path_fn` fails exactly when the rule has no timing or its path parts fail, and with the missing timing when there is no timing |
| RuleTree.TreePathSegments | jyotisha/panchaanga/temporal/festival/rules/__init__.py:283 | for a rule with a timing, the tree segments are the non-empty segments of its granular path with `__info.toml` removed |
| RuleTree.MakeTreeBuilt | jyotisha/panchaanga/temporal/festival/rules/__init__.py:283 | the tree is built exactly when every rule's `path_fn` succeeds |
| RuleTree.MakeTreeNoTiming | jyotisha/panchaanga/temporal/festival/rules/__init__.py:283 | a rule without timing makes `tree_maker` raise, and what it raises is the missing timing when every rule before it has a path |
| RuleTree.MakeTreeOnlyNoTiming | jyotisha/panchaanga/temporal/festival/rules/__init__.py:283 | when every rule has a path but for some without timing, the only error `tree_maker` can raise is the missing timing |
| RuleTree.MonthAngaSegments | jyotisha/panchaanga/temporal/festival/rules/__init__.py:283 | a month/anga rule is filed under month type, anga type, two-digit month and two-digit anga |
| RuleTree.FiledFourDeep | jyotisha/panchaanga/temporal/festival/rules/__init__.py:283 | only month/anga rules are filed four directories deep, under the directory of their own fields |
| RuleTree.MonthAngaFiled | jyotisha/panchaanga/temporal/festival/rules/__init__.py:283 | every month/anga rule with a non-empty leaf name is filed under its own directory |
| RuleTree.MonthKeyRegular | jyotisha/panchaanga/temporal/festival/rules/__init__.py:289-290 | an integral month's key parses back to the month, has no '.', and has two digits for 0..99 |
| RuleTree.MonthKeyAdhika | jyotisha/panchaanga/temporal/festival/rules/__init__.py:286-288 | an adhika month's key is the truncated month in two digits followed by `.5` |
| RuleTree.AdhikaKeyDistinct | jyotisha/panchaanga/temporal/festival/rules/__init__.py:286-290 | an adhika key never equals a regular month's key |
| RuleTree.MonthKeyInjective | jyotisha/panchaanga/temporal/festival/rules/__init__.py:289-290 | distinct integral months get distinct keys |
| RuleTree.MonthAngaFests | jyotisha/panchaanga/temporal/festival/rules/__init__.py:285-297 | the lookup fails exactly when there is no tree; a key that is not in the tree gives `{}` |
| RuleTree.MonthAngaFestsSound | jyotisha/panchaanga/temporal/festival/rules/__init__.py:292-295 | what a lookup finds is one of the rules, a month/anga rule with the looked-up anga number, month type, anga type and, for an integral month, month number |
| RuleTree.MonthAngaFestsComplete | jyotisha/panchaanga/temporal/festival/rules/__init__.py:292-295 | a month/anga rule not overwritten by a later rule at its place is found by the lookup with its own fields |
| RuleTree.AdhikaLookupEmpty | jyotisha/panchaanga/temporal/festival/rules/__init__.py:285-295 | an adhika-month lookup finds nothing, because rules are filed under integral month numbers |
| RuleTree.Queries | jyotisha/panchaanga/temporal/festival/rules/__init__.py:300-305 | there are two lookups per anga |
| RuleTree.QueriesAt | jyotisha/panchaanga/temporal/festival/rules/__init__.py:301-305 | the lookups for anga i are at the month in force after anga i, and at month 0 |
| RuleTree.EffectiveMonthNotLunar | jyotisha/panchaanga/temporal/festival/rules/__init__.py:303 | outside `lunar_month` the month is never changed |
| RuleTree.EffectiveMonthLastTithi | jyotisha/panchaanga/temporal/festival/rules/__init__.py:303-304 | with `lunar_month` the month in force is the month of the last tithi so far, or the given month when there is none |
| RuleTree.RelevantFests | jyotisha/panchaanga/temporal/festival/rules/__init__.py:299-307 | no angas give `{}`; otherwise the result fails exactly when there is no tree |
| RuleTree.RelevantFestsGet | jyotisha/panchaanga/temporal/festival/rules/__init__.py:305-306 | a leaf of the result holds the value of the last lookup that has it |
| RuleTree.RelevantFestsWildcard | jyotisha/panchaanga/temporal/festival/rules/__init__.py:305-306 | every leaf found at month 0 for one of the angas is in the result |
| RuleTree.RelevantFestsAtMonth | jyotisha/panchaanga/temporal/festival/rules/__init__.py:303-306 | every leaf found at the month in force for one of the angas is in the result |
| DailyTex.CyclicSucc | jyotisha/panchaanga/scripts/write_daily_panchaanga_tex.py:50 | `i % n + 1` stays in 1..n, is i + 1 below n and wraps n to 1 |
| DailyTex.CyclicSuccInjective | jyotisha/panchaanga/scripts/write_daily_panchaanga_tex.py:50 | in 1..n distinct indices have distinct successors |
| DailyTex.SamvatsaraId | jyotisha/panchaanga/scripts/write_daily_panchaanga_tex.py:48 | the samvatsara number is in 1..60 and is the year's distance from Prabhava (1568) modulo 60, plus one |
| DailyTex.SamvatsaraSuccessor | jyotisha/panchaanga/scripts/write_daily_panchaanga_tex.py:48-50 | the second name of the title is the next year's samvatsara |
| DailyTex.SamvatsaraPeriodic | jyotisha/panchaanga/scripts/write_daily_panchaanga_tex.py:48 | the samvatsara repeats every 60 years |
| DailyTex.SamvatsaraDistinct | jyotisha/panchaanga/scripts/write_daily_panchaanga_tex.py:48 | years less than 60 apart have different samvatsaras |
| DailyTex.TitleOf | jyotisha/panchaanga/scripts/write_daily_panchaanga_tex.py:48-63 | the title holds this and the next year's samvatsaras, which differ, and the Kali years year + 3100 and year + 3101 |
| DailyTex.LastSpanNone | jyotisha/panchaanga/scripts/write_daily_panchaanga_tex.py:143-163 | no span has been seen by day d exactly when days 1..d have none |
| DailyTex.Preview | jyotisha/panchaanga/scripts/write_daily_panchaanga_tex.py:157-179 | a next yoga or karana is shown exactly when the last span ends; it is in 1..n, the following index, wrapping n to 1 |
| DailyTex.YearNameFlips | jyotisha/panchaanga/scripts/write_daily_panchaanga_tex.py:234-236 | the year name is the second samvatsara exactly when some day so far had Mesha at sunset, and the first otherwise |
| DailyTex.YearNameNeverReverts | jyotisha/panchaanga/scripts/write_daily_panchaanga_tex.py:234-236 | once the year name has switched, it stays switched |
| DailyTex.MonthEndOf | jyotisha/panchaanga/scripts/write_daily_panchaanga_tex.py:243-254 | a month end is shown exactly when the day has a solar-month end; its rashi is the previous day's sunset month |
| DailyTex.MonthEndBounds | jyotisha/panchaanga/scripts/write_daily_panchaanga_tex.py:246-254 | the shown hours are not negative, and before the next sunrise they fall within this day's span up to that sunrise |
| DailyTex.MonthEndNextDay | jyotisha/panchaanga/scripts/write_daily_panchaanga_tex.py:246-254 | with days one unit apart, hours from the next day are 24 less than hours from this day |
| DailyTex.MonthEndDisplay | jyotisha/panchaanga/scripts/write_daily_panchaanga_tex.py:243-254 | the branches compute the value-level month end |
| DailyTex.Shown | jyotisha/panchaanga/scripts/write_daily_panchaanga_tex.py:267-270 | a moon time is `---` exactly when it is after the next sunrise, and otherwise at most the hours up to that sunrise |
| DailyTex.MoonDisplay | jyotisha/panchaanga/scripts/write_daily_panchaanga_tex.py:267-275 | moonrise and moonset are as Shown states, and the rise-first layout is chosen exactly when moonrise precedes moonset |
| DailyTex.RowAtFacts | jyotisha/panchaanga/scripts/write_daily_panchaanga_tex.py:272-298 | a row's festivals are strictly sorted with exactly the day's festivals, its layout is rise-first iff moonrise precedes moonset, and its year name is one of the two title names |
| DailyTex.UnboundYogaIff | jyotisha/panchaanga/scripts/write_daily_panchaanga_tex.py:143-158 | a day fails with the yoga unbound exactly when no day so far had a yoga span |
| DailyTex.EmptyDayRepeatsPreview | jyotisha/panchaanga/scripts/write_daily_panchaanga_tex.py:143-159 | a day without yoga spans repeats the previous day's next-yoga preview |
| DailyTex.LastSpan | jyotisha/panchaanga/scripts/write_daily_panchaanga_tex.py:143-162 | after the loop the variables hold the last span, or their earlier value when there was none |
| DailyTex.WriteDay | jyotisha/panchaanga/scripts/write_daily_panchaanga_tex.py:142-298 | one pass of the loop body produces the value-level row of day d and carries the state after day d |
| DailyTex.AssembleRow | jyotisha/panchaanga/scripts/write_daily_panchaanga_tex.py:243-298 | the assembled row is the value-level row of the day |
| DailyTex.WriteDailyTex | jyotisha/panchaanga/scripts/write_daily_panchaanga_tex.py:48-304 | the title is TitleOf(year); row i is the row of day i + 1; no day before the last row is 31 December; an error is the next day's; without an error, all days 1..MAX_SZ-2 are done or the last row is 31 December |

## Left out

- Reading TOML files, `Path.glob` and sorting are not modelled. The rule files of each
  directory are an input, given in sorted order. Schema validation is modelled only for the
  month and anga type enumerations.
- `DATA_ROOT` is a parameter of the model; it is not derived from the module path.
- `custom_transliteration.tr` and `urllib.parse.quote` are function parameters; their
  internals are not modelled.
- `collection_helper.tree_maker` is not part of this model. It is modelled as a map from a
  rule's directory segments to a dict from leaf name to rule. The path is split on '/' and
  empty segments are dropped. A clash between a leaf and a directory of the same name is not
  modelled.
- `get_storage_file_name`, `get_url`, `get_description_string`, `fix_filenames` and
  `get_cached` (an `lru_cache`) are left out. They wrap the modelled path functions, do file
  renames, or describe rules for display.
- The `rule_repos` constant is left out. The repositories are a parameter.
- The anga type is given to the lookups as a tagged value (`Tithi` with its month, or
  another anga with its index); the `Anga` class hierarchy is not modelled.
- Logging and `timebudget` are not modelled; a warning changes no result.
- In the TeX writer, the printing and the TeX strings are not modelled. Nor are the name
  tables, the time formatting (`Hour.toString`), sunrise/sunset, the kaalas, rahu/yama/gulika,
  the tithi/nakshatra/rashi/lagna strings, `compute_lagnams`, the time zone offset,
  transliterating festivals and `print_lat_lon`. The calendar date of each day is an input.
- The TeX writer's `MAX_SZ` is the length of the day sequence. Day 0 and day `MAX_SZ - 1` are
  the padding days the loop reads but does not print.
- `lower()` is modelled for ASCII letters only.
- FestivalEvents.GetKaala: no contract of its own. The default is stated by
  FestivalEvents.FromDetailsDefaults.
- FestivalEvents.GetPriority: no contract of its own. The default is stated by
  FestivalEvents.FromDetailsDefaults.
- RuleTree.MakeTree: no contract of its own. RuleTree.MakeTreeBuilt, RuleTree.MakeTreeNoTiming,
  RuleTree.MakeTreeValid and RuleTree.MakeTreeGet state what it builds and when it raises.
- RuleTree.MonthKey: no contract of its own. RuleTree.MonthKeyRegular, RuleTree.MonthKeyAdhika
  and RuleTree.AdhikaKeyDistinct state the keys.
- RuleTree.EffectiveMonth: no contract of its own. RuleTree.EffectiveMonthNotLunar and
  RuleTree.EffectiveMonthLastTithi state it.
- RulesCollections.QuotedTransliteration: no contract of its own. It is the value-level
  definition the method RulesCollections.TransliterateQuotedText is proved equal to, and
  RulesCollections.TransliterateOdd, RulesCollections.UnquotedUnchanged,
  RulesCollections.UnmatchedUnchanged and RulesCollections.MatchedQuotesRemoved state it.
- RulesCollections.RulesMapOf: no contract of its own. RulesCollections.RulesMapOfLast,
  RulesCollections.RulesMapOfAbsent, RulesCollections.RulesMapOfEntries and
  RulesCollections.RulesMapOfValid state it.
- RulesCollections.LoadWith: no contract of its own. RulesCollections.LoadSucceeded,
  RulesCollections.LoadFailed, RulesCollections.FirstFailure and RulesCollections.LoadStopped
  state it.
- RulesCollections.Load: no contract of its own. RulesCollections.MergedRule,
  RulesCollections.MergedEntries and RulesCollections.LoadRaisesOnRuleWithoutTiming state it.
- DailyTex.RowAt: no contract of its own. DailyTex.RowAtFacts, DailyTex.UnboundYogaIff and
  DailyTex.EmptyDayRepeatsPreview state it.
- DailyTex.LastSpanUpTo: no contract of its own. DailyTex.LastSpanNone states it.
- DailyTex.YearNameAfter: no contract of its own. DailyTex.YearNameFlips and
  DailyTex.YearNameNeverReverts state it.
- `HinduCalendarEvent` is read from files, so a rule's fields can hold types other than the
  schema's. Only the cases the path code reacts to are modelled: an offset that is not an
  integer, tags that are not a list, and an anga number that is missing.
- Adhika months: the lookup uses the key `MM.5`, but rules are filed under the two-digit
  integral month. So an adhika lookup never finds a rule (RuleTree.AdhikaLookupEmpty). The
  model follows the code; it does not let a rule be filed under an adhika key.

## Findings

| source | as written | input that shows it | evidently intended | confidence | as-written member | corrected member |
|---|---|---|---|---|---|---|
| jyotisha/panchaanga/temporal/festival/rules/__init__.py:160-166 | `self.timing.anchor_festival_id` is read before `self.timing is None` is tested, so a rule without a timing raises AttributeError | a rule with id "x", no timing and tags `[]`, with base "" | the `description_only` branch: `/description_only/x__info.toml`; as written, `set_rule_dicts` and so the collection's constructor raise on such a rule (RulesCollections.LoadRaisesOnRuleWithoutTiming) | not executed | FestivalEvents.NoTimingCounterexample | FestivalEvents.PathPartsWellFormed |
