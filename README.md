# Campus Life Planner — a verified model of its core

Campus Life Planner is a browser task planner. Students record tasks with a title, a duration in
minutes, a due date and an optional tag. The application keeps them in browser storage and shows a
dashboard: total and average duration, the most common tag, progress towards a daily target, and a
seven-day trend chart. This project models the logic behind that, in Dafny, and proves what the code
promises about it:

- **Validators.dfy**: the field formats of `scripts/validators.js`, written as predicates over
  ASCII strings (title, duration, date, tag, repeated word). Also `validateTaskForm`,
  `validateTaskObject` and `validateSettings`, over a small model of JavaScript values
  (`JsValues.dfy`). Those two answer true, false, or the TypeError that `String()` or `Number()`
  raises on a parsed object with its own `toString` key; inside the import handler
  (scripts/ui.js:923-943) that error abandons the whole import.
- **Search.dfy**: `scripts/search.js`.
  - `searchTasks`: an order-preserving filter by case-insensitive substring.
  - `escapeRegExp`: escapes regular-expression special characters.
  - `highlightMatches`: a list of plain and marked pieces, then rendered.
  - `regexSearch`: the regular-expression engine is a parameter.
- **State.dfy**: the `State` object of `scripts/state.js`, as a class `TaskStore` whose methods change
  the task list, the settings and the theme flag. Each method also writes a ghost copy of the stored
  value, standing for what `scripts/storage.js` saves. `TasksSaved()`, `SettingsSaved()` and
  `ThemeSaved()` say that reloading one stored key gives back the value in memory, and `Valid()` is
  all three. The methods do not assume them: the page can reorder the live task list without saving
  it, and the next write saves the list as it then is.
- **Tasks.dfy**: task records, lookups by id, and the `task_<clock>` ids.
- **Dashboard.dfy**: the list computations `scripts/ui.js` performs before touching the page.
  - total and average duration, and the top tag;
  - daily-target percentage and status band;
  - week-trend counts and bar heights;
  - the distinct tags of the filter menu, and the tag, date and search filter chain.
- **Text.dfy, Seqs.dfy, Wrappers.dfy**: shared helpers.
  - ASCII character classes, `trim`, `toLowerCase`;
  - `Array.prototype.filter` and the subsequence relation;
  - `Option`.

Durations are exact reals. The clock, the current time, "today" and the seven trend days are
parameters.

## Model

| member | source | states |
|---|---|---|
| Text.Trim | scripts/search.js:13 | `trim` gives the empty string exactly when the input is all whitespace; otherwise the result starts and ends with a non-space; it is the infix of the input left after cutting whitespace-only runs from both ends |
| Text.LowerChar | scripts/search.js:17-31 | `toLowerCase` on one character: an ASCII capital becomes its small letter, every other character is kept |
| Text.Lower | scripts/search.js:17-31 | `toLowerCase`: the same length, each character lower-cased on its own |
| Text.Contains | scripts/search.js:21-31 | `includes`: the second text occurs at some position of the first (the empty text occurs in every text) |
| Validators.TitleMatches | scripts/validators.js:8 | the title pattern accepts exactly the non-empty strings whose first and last characters are not whitespace and whose inner characters are not line terminators |
| Validators.TitleMatchesTrimmed | scripts/validators.js:8 | a title is accepted iff it is non-empty, single-line and unchanged by `trim` |
| Validators.DurationSplit | scripts/validators.js:9 | an accepted duration is an integer part without leading zero ("0" or a non-zero digit then digits), optionally followed by '.' and one or two digits |
| Validators.SplitIsLeadingDigits | scripts/validators.js:9 | the only split between the integer part and the fraction lies at the end of the leading digits |
| Validators.DurationAccepted | scripts/validators.js:9 | "2.5", "0", "120" and "0.75" are accepted |
| Validators.DurationRefused | scripts/validators.js:9 | "02", "1.", "1.234" and "-1" are refused |
| Validators.MonthMatches | scripts/validators.js:10 | the month group accepts exactly two digits with value 1 to 12 |
| Validators.DayMatches | scripts/validators.js:10 | the day group accepts exactly two digits with value 1 to 31 |
| Validators.DateExamples | scripts/validators.js:10 | "2025-02-30" passes (no calendar check); "2025-13-40", "2025-00-10", "2025-3-10" fail |
| Validators.TagTailIff | scripts/validators.js:11 | the repeated `[ -][A-Za-z]+` groups are exactly the strings of letters where each separator is followed by a letter |
| Validators.TagMatchesIff | scripts/validators.js:11 | a tag is accepted iff it starts with a letter, has only letters, spaces and hyphens, and every separator is followed by a letter (no leading, trailing or doubled separator) |
| Validators.RepeatPositions | scripts/validators.js:12 | in word, whitespace, word, the only possible match of the repeated-word pattern spans the whole string |
| Validators.TwoWords | scripts/validators.js:12 | two words separated by whitespace are flagged iff they are identical, case-sensitively |
| Validators.OneWord | scripts/validators.js:12 | a single word is never flagged |
| Validators.RepeatedWordFlagged | scripts/validators.js:12 | "Study Study" is flagged |
| Validators.DifferentWordsNotFlagged | scripts/validators.js:12 | "Study study" is not flagged (the back-reference is case-sensitive) and "the theme" is not (the repeat must end at a word boundary) |
| Validators.DurationMatches | scripts/validators.js:9 | the duration pattern as a predicate: an integer part then a fraction part (characterised by DurationSplit) |
| Validators.DateMatches | scripts/validators.js:10 | the date pattern as a predicate: four digits, '-', a month group, '-', a day group, ten characters in all |
| Validators.TagMatches | scripts/validators.js:11 | the tag pattern as a predicate: a letter then repeated separator-and-letters groups (characterised by TagMatchesIff) |
| Validators.HasDuplicateWords | scripts/validators.js:12 | the repeated-word pattern as a predicate: some word, whitespace and the same word again, each end at a word boundary (characterised by TwoWords and OneWord) |
| Validators.TitleError | scripts/validators.js:27-33 | none iff the title is non-empty, well-spaced and has no repeated word; otherwise the first failing rule's message in the order required, spacing, duplicate |
| Validators.DurationError | scripts/validators.js:36-40 | none iff the duration text matches the pattern; "required" for empty text, otherwise the format message |
| Validators.DueDateError | scripts/validators.js:43-47 | none iff the date matches the pattern; "required" for empty text, otherwise the format message |
| Validators.TagError | scripts/validators.js:50-52 | an empty tag is never an error; a non-empty tag errs iff it fails the tag pattern, and then with the tag message |
| Validators.ValidateTaskForm | scripts/validators.js:23-58 | each field is checked independently; the error map holds a field exactly when that field's check fails, with its message; `isValid` iff the map is empty iff all four checks pass |
| Validators.DuplicateTitle | scripts/validators.js:27-33 | any word written twice, one space apart, gets the duplicate-word message |
| Validators.PlainTitle | scripts/validators.js:27-33 | "Study" gets no title error |
| Validators.SpacedTitle | scripts/validators.js:29-30 | " Study" gets the spacing message |
| Validators.DurationFieldExamples | scripts/validators.js:36-40 | "2" and "2.5" have no duration error |
| Validators.DateFieldExamples | scripts/validators.js:43-47 | "2025-03-10" has no date error and "2025-13-40" gets the format message |
| Validators.FieldExamples | scripts/validators.js:26-47 | the field examples above together |
| Validators.FormExamples | scripts/validators.js:23-58 | two whole submissions and their exact error maps |
| JsValues.Truthy | scripts/validators.js:66-77 | ToBoolean as `!v` and `v &&` read it: false exactly for undefined, null, false, 0, NaN and the empty string |
| JsValues.IsObject | scripts/validators.js:66 | `!v \|\| typeof v !== 'object'` refuses the value unless it is an array or an object |
| JsValues.Get | scripts/validators.js:69-77 | `v[key]` for the field names read: an own property of a plain object, undefined otherwise; arrays and primitives carry no property of those names |
| JsValues.ConversionThrows | scripts/validators.js:74-77 | `String(v)`/`Number(v)` throw a TypeError: an object with its own `toString` key (not callable in parsed JSON), or an array holding such a value at any position |
| JsValues.ToStr | scripts/validators.js:75 | `String(v)`: a TypeError exactly when the conversion throws; otherwise a number as its own text, a string as itself, arrays joined with ",", other objects as "[object Object]" |
| JsValues.Join | scripts/validators.js:75 | `String` of an array: throws exactly when some element's conversion throws; otherwise the elements' strings separated by ",", with null and undefined elements printed as the empty text |
| JsValues.ToNumberSign | scripts/validators.js:97-98 | `Number(v)` classified as NaN, negative or not negative, or a TypeError exactly when the conversion throws: undefined is NaN, null and booleans are not negative, strings follow StringToNumberSign, arrays and objects go through their string form |
| JsValues.StringToNumberSign | scripts/validators.js:97-98 | `Number(s)` for a string, classified: trimmed, empty is 0, `0x`/`0o`/`0b` integers and unsigned decimals are not negative, `-` with Infinity or a non-zero digit is negative, anything else NaN |
| Validators.HasRequiredFields | scripts/validators.js:66-71 | the value is an object with truthy id, title and dueDate and a defined duration |
| Validators.ValidateTaskObject | scripts/validators.js:65-80 | true iff the required fields are there and title, `String(duration)`, date and (when truthy) tag convert without throwing and match their formats; a TypeError iff the required fields are there and, testing in that order, a field's conversion throws before any test has failed |
| Validators.FormValidImpliesObjectValid | scripts/validators.js:65-80 | a record built from a valid form, with an id, passes the object check |
| Validators.FormRecordIff | scripts/validators.js:65-80 | a record of strings never throws, and with an id it passes the object check exactly under the form's format rules without the repeated-word rule |
| Validators.ObjectSkipsDuplicateRule | scripts/validators.js:74-77 | "Study Study" fails the form but passes the object check |
| Validators.ObjectDurationZero | scripts/validators.js:69 | a record with a truthy id, a well-formed title and date, and the number 0 as duration passes |
| Validators.ObjectDurationMissing | scripts/validators.js:69 | a record without a duration is refused |
| Validators.ObjectConversionThrows | scripts/validators.js:74-75 | a title `{"toString": 1}`, or an array duration holding it, makes the check throw; a title that already fails its format answers false before the throwing duration is reached |
| Validators.ValidateSettings | scripts/validators.js:87-104 | false exactly for a non-object, a truthy unit other than "minutes"/"hours", or a defined target whose `Number` is NaN or negative; a TypeError exactly when an object with an acceptable unit has a defined target whose `Number` throws |
| Validators.SettingsFormAccepted | scripts/validators.js:87-104 | a settings form with a known unit and a non-negative numeric target passes |
| Validators.SettingsAccepted | scripts/validators.js:87-104 | `{}`, the defaults and an array pass |
| Validators.EmptyTextTargetAccepted | scripts/validators.js:96-100 | an empty-string target passes, since `Number("")` is 0 |
| Validators.SettingsRefused | scripts/validators.js:87-104 | null, a string, unit "days", target -5 and target NaN are refused |
| Validators.SettingsConversionThrows | scripts/validators.js:90-97 | a target `{"toString": 1}` makes the check throw, unless a refused unit has already answered false |
| Validators.LettersNotANumber | scripts/validators.js:97-98 | `Number` of a trimmed word of ASCII letters other than "Infinity" is NaN |
| Validators.NegativeDecimal | scripts/validators.js:97-98 | a trimmed "-" followed by a decimal with a non-zero digit is negative |
| Validators.TargetOnly | scripts/validators.js:96-100 | a record holding only a defined target is accepted iff `Number` gives a number that is not negative, and throws iff `Number` throws |
| Validators.TextTargetIff | scripts/validators.js:96-100 | a text target never throws, and is accepted iff `Number` gives a number that is not negative |
| Validators.LetterTargetRefused | scripts/validators.js:96-100 | a target that is a word of letters is refused |
| Validators.NegativeTargetRefused | scripts/validators.js:96-100 | a target of "-" and a non-zero decimal, with any surrounding whitespace, is refused |
| Seqs.Filter | scripts/state.js:137 | `filter` keeps every element that passes, as many times as the input holds it, and nothing else |
| Seqs.FilterUnique | scripts/state.js:137 | the filter is the only order-preserving subsequence holding every passing element as often as the input and no other element |
| Seqs.FilterIsSubsequence | scripts/search.js:19 | a filter result keeps the input's order |
| Seqs.FilterKeepsAll | scripts/state.js:137 | filtering returns the input iff every element passes |
| Seqs.FilterTwice | scripts/ui.js:616-623 | two filters in a row are one filter by the conjunction |
| Seqs.FilterIdempotent | scripts/search.js:19-36 | filtering twice by the same test is filtering once |
| Seqs.SubsequenceTransitive | scripts/ui.js:613-627 | a subsequence of a subsequence is a subsequence |
| Tasks.FindIndex | scripts/state.js:114 | `findIndex` by id: -1 iff the id is absent, else the first position holding it |
| Tasks.FindIndexIsFirst | scripts/state.js:114 | the first position holding an id is what `findIndex` returns |
| Tasks.FindById | scripts/state.js:37 | `find(...) \|\| null`: none iff the id is absent, else the first task with that id |
| Tasks.FindUnique | scripts/state.js:37 | with unique ids, looking up a task's id gives that task |
| Tasks.NatToDecimal | scripts/state.js:93 | the text of the clock value is non-empty decimal digits without leading zero |
| Tasks.IdFor | scripts/state.js:93 | the id `task_${Date.now()}`: "task_" followed by the decimal text of the clock |
| Tasks.DecimalRoundTrip | scripts/state.js:93 | reading the text back gives the clock value |
| Tasks.IdForInjective | scripts/state.js:93 | `task_<clock>` ids are equal iff the clock values are |
| Tasks.NewTask | scripts/state.js:91-100 | the new task has id `task_<clock>`, the input's fields and both timestamps `now` |
| Tasks.UpdatedTask | scripts/state.js:118-125 | the update keeps id and creation time, replaces the four input fields and sets the update time |
| Tasks.WithoutId | scripts/state.js:137 | no task with the id remains; every other task remains as many times as before, in order |
| Tasks.DeleteAbsent | scripts/state.js:137 | deleting an absent id changes nothing |
| Tasks.AppendUnique | scripts/state.js:102 | appending keeps ids unique iff the new id is absent |
| Tasks.SameClockCollides | scripts/state.js:93 | two adds at the same clock value break uniqueness |
| Tasks.LaterClockKeepsUnique | scripts/state.js:93 | if all ids came from earlier clock values, the next add keeps ids unique |
| Tasks.UpdateKeepsUnique | scripts/state.js:118-125 | an update keeps ids unique |
| Tasks.SubsequenceUnique | scripts/state.js:137 | a subsequence of a list with unique ids has unique ids |
| Tasks.DeleteKeepsUnique | scripts/state.js:137 | a delete keeps ids unique |
| State.LoadTasks | scripts/storage.js:18-20 | `loadTasks`: the stored list, or [] when nothing is stored |
| State.LoadSettings | scripts/storage.js:34-39 | `loadSettings`: the stored record, or unit "minutes" and target 120 when nothing is stored |
| State.LoadTheme | scripts/storage.js:53-55 | `loadTheme`: dark only when `true` was stored |
| State.TaskStore.Init | scripts/state.js:43-54 | the state is loaded from storage: the stored list or [], the stored settings or the defaults, dark iff "true" was stored |
| State.TaskStore.GetTaskById | scripts/state.js:36-38 | the first task with the id, or none |
| State.TaskStore.GetTask | scripts/state.js:146-148 | the same lookup as `getTaskById` |
| State.TaskStore.AddTask | scripts/state.js:90-105 | appends exactly the new task, returns it, saves the list as it now is, changes nothing else; needs no prior agreement of memory and storage |
| State.TaskStore.UpdateTask | scripts/state.js:113-129 | an absent id returns none and changes nothing; otherwise only the first match is replaced by its update, which is returned; the list is saved |
| State.TaskStore.DeleteTask | scripts/state.js:136-139 | the list becomes the tasks with other ids, in order, and is saved; nothing is returned |
| State.TaskStore.UpdateSettings | scripts/state.js:154-157 | shallow merge: new keys win, other keys are kept, no key is lost; saved |
| State.TaskStore.ReorderUnsaved | scripts/ui.js:665-718 | `sortTasks` with no narrowing filter sorts the array `getTasks` returned (scripts/state.js:19-21): the list in memory becomes a permutation of itself and storage is not written |
| State.TaskStore.ToggleDarkMode | scripts/state.js:78-83 | the flag flips, is saved and is returned |
| State.FindAfterAdd | scripts/state.js:90-105 | after adding a task with an unused id, lookup finds it |
| State.FindAfterAddShadowed | scripts/state.js:93 | after adding a task with an id in use, lookup still finds the older task |
| State.FindAfterUpdate | scripts/state.js:113-129 | after an update, lookup gives the updated task |
| State.FindAfterDelete | scripts/state.js:136-139 | after a delete, the id is not found |
| State.StoreKeepsUniqueIds | scripts/state.js:90-139 | delete and update keep ids unique; add keeps them unique iff the clock id is unused |
| State.ToggleTwice | scripts/state.js:78-83 | toggling twice restores the theme in memory and in storage |
| State.SortThenAdd | scripts/state.js:90-105 | after the live list is reordered without saving, the next add saves the reordered list with the new task |
| Search.IsBlank | scripts/search.js:13 | `!query \|\| query.trim() === ''`: the query trims to the empty string |
| Search.SearchTerm | scripts/search.js:17 | the query lower-cased then trimmed |
| Search.MatchesTerm | scripts/search.js:19-36 | the term occurs in the lower-cased title, in the lower-cased tag when there is one, or in the due date as is |
| Search.SearchTasks | scripts/search.js:12-37 | a blank query returns the list unchanged; otherwise the result keeps order, and a task is kept iff the trimmed lower-case term occurs in its lower-case title, its lower-case tag, or its due date, each kept task as many times as the list holds it |
| Search.SearchIdempotent | scripts/search.js:19-36 | searching the result again with the same query changes nothing |
| Search.SearchTermIsLowerTrim | scripts/search.js:17 | lower-casing then trimming equals trimming then lower-casing |
| Search.TrimLowerCommute | scripts/search.js:17 | `trim` and ASCII `toLowerCase` commute |
| Search.EscapeRegExp | scripts/search.js:61-63 | every special character is preceded by a backslash and no other character is; dropping those backslashes gives the input back |
| Search.EscapeInjective | scripts/search.js:61-63 | different strings escape differently |
| Search.EscapePlain | scripts/search.js:62 | a string without special characters is left unchanged |
| Search.Segments | scripts/search.js:51-53 | removing the markers gives the text back; every marked piece equals the term ignoring case |
| Search.SegmentsGreedy | scripts/search.js:51-53 | matches are taken left to right, without overlap, and no match starts inside a plain piece |
| Search.HighlightMatches | scripts/search.js:45-48 | a blank query or an empty text returns the text unchanged |
| Search.HighlightIsSegments | scripts/search.js:50-53 | otherwise the result is the rendered segmentation by the trimmed query, escaping being undone by the regular expression |
| Search.Render | scripts/search.js:53 | the output of `replace`: plain characters as they are, each match wrapped in `<mark>` and `</mark>` |
| Search.NoMatchRendersText | scripts/search.js:53 | a text with no match is rendered unchanged |
| Search.HighlightFront | scripts/search.js:53 | a match at the front is wrapped in `<mark>` with its own casing kept |
| Search.HighlightSingleFront | scripts/search.js:45-54 | a match at the front followed by text without a match is highlighted by marking the front alone, with its own casing |
| Search.HighlightExample | scripts/search.js:45-54 | ("Team Meeting", "team") gives "<mark>Team</mark> Meeting" |
| Search.RegexSearch | scripts/search.js:71-100 | a blank pattern or one that fails to compile returns the list unchanged; otherwise the result keeps order and a task is kept iff its title, truthy tag or due date matches, as many times as the list holds it |
| Search.RegexKeeps | scripts/search.js:79-96 | the filter callback: the pattern tests the title, then the tag when it is truthy, then the due date |
| Dashboard.TotalDuration | scripts/ui.js:403 | the `reduce` sum of the durations, from 0, left to right |
| Dashboard.TotalAppend | scripts/ui.js:403 | the total of two lists one after the other is the sum of their totals |
| Dashboard.TotalBounds | scripts/ui.js:403 | durations in [lo, hi] give a total in [n·lo, n·hi] |
| Dashboard.AverageDuration | scripts/ui.js:406 | 0 for no tasks, otherwise average × count = total |
| Dashboard.AverageBounds | scripts/ui.js:406 | the average lies within the bounds of the durations |
| Dashboard.TagCountAbsent | scripts/ui.js:413-415 | a tag no task carries has count 0 |
| Dashboard.Turn | scripts/ui.js:414-419 | one turn of the loop: an untagged task changes nothing; a tagged task's count goes up by one and no other count changes; it becomes the top tag, with its count as the maximum, exactly when that count exceeds the maximum, and otherwise top tag and maximum stay |
| Dashboard.TallyStep | scripts/ui.js:414-419 | one turn keeps every count exact and keeps the top tag the first to reach the largest count |
| Dashboard.TallyLeads | scripts/ui.js:413-420 | after any prefix the loop's counts are exact and its top tag leads as described |
| Dashboard.TallyDone | scripts/ui.js:409-421 | after the whole list: "None" and 0 with no tagged task, otherwise a carried tag with the largest count that reached it first |
| Dashboard.TopTag | scripts/ui.js:409-421 | "None" when no task is tagged; otherwise a tag carried by some task whose count is the largest; among tied tags the first to reach that count wins (strict `>`) |
| Dashboard.ErasedTag | scripts/ui.js:409-417 | erasing blanks exactly the tags that name inherited properties |
| Dashboard.InheritedNames | scripts/ui.js:409-417 | the twelve property names every plain object inherits from `Object.prototype`, which `tagCounts[task.tag]` reads back instead of `undefined` |
| Dashboard.TopTagAsWritten | scripts/ui.js:409-421 | the loop as written computes the top tag of the list with inherited-name tags blanked: "None" when no other tag is carried, otherwise a tag some task carries, not inherited, with the largest count, the first to reach it |
| Dashboard.ConstructorTagIgnored | scripts/ui.js:409-421 | one task tagged "constructor": the code as written reports "None"; the corrected count reports "constructor" |
| Dashboard.DayTasks | scripts/ui.js:538 | exactly the tasks due that day, each as many times as the list holds it, in order |
| Dashboard.TodayDuration | scripts/ui.js:538-539 | the total duration of the tasks due today |
| Dashboard.PercentComplete | scripts/ui.js:542 | 0 when the target is not positive; otherwise within [0, 100], 100 iff the target is met, and the exact ratio below it |
| Dashboard.Band | scripts/ui.js:566-572 | met iff duration ≥ target; close iff 0.7·target ≤ duration < target; far otherwise |
| Dashboard.BandAgreesWithPercent | scripts/ui.js:542-572 | with a positive target the band is "met" iff the bar is full; with target 0 the band is met and the bar empty |
| Dashboard.WeekTrend | scripts/ui.js:479-483 | for each day, the number and the total duration of the tasks due that day |
| Dashboard.MaxTaskCount | scripts/ui.js:487 | at least 1, at least every count, and equal to 1 or to some count |
| Dashboard.BarHeight | scripts/ui.js:496 | `Math.max(count / max * 100, 5)` |
| Dashboard.BarHeightsInRange | scripts/ui.js:496 | every bar is 5 to 100 percent high, and the busiest day's bar is 100 |
| Dashboard.FirstWithTagSpec | scripts/ui.js:582-587 | the first position of a tag: -1 iff no task carries it, otherwise a task with the tag and none before |
| Dashboard.DistinctTags | scripts/ui.js:582-587 | every truthy tag exactly once, nothing else, in order of first appearance |
| Dashboard.TaggedTasks | scripts/ui.js:616-618 | exactly the tasks with the selected tag, each as many times as the list holds it, in order |
| Dashboard.PassesFilters | scripts/ui.js:613-628 | the test the three narrowing steps apply in turn: the selected tag when one is selected, the selected date when one is selected, and the search query when it is not blank |
| Dashboard.NarrowByTag | scripts/ui.js:616-618 | after the tag step the list is an order-preserving subsequence holding every task with the selected tag (when one is selected) as often as the list does, and no other task |
| Dashboard.NarrowByDate | scripts/ui.js:621-623 | after the date step it holds, with the same multiplicities, exactly the tasks that also have the selected date, when one is selected |
| Dashboard.NarrowByQuery | scripts/ui.js:626-628 | after the search step the list holds, in order and with the same multiplicities, exactly the tasks passing all three steps |
| Dashboard.ApplyFilters | scripts/ui.js:613-627 | the result is the list filtered by one test: the selected tag (if any), the selected date (if any) and the search query (if not blank); so it keeps order and every passing task as many times as the list holds it |

## Left out

- Storage I/O. `localStorage`, `JSON.parse` and `JSON.stringify` are stood for by ghost copies of the three stored values. Things this does not model:
  - a stored value that fails to parse;
  - JSON round-trips, such as a NaN duration being stored as `null`.
- `importTasks` and `exportTasks` (scripts/state.js:164-178, scripts/storage.js:61-80): their meaning is JSON text, which the model has no parser for.
- `getTasks`, `getSettings` and `isDarkMode` return the live field, not a copy. Of what the page can do through that alias, the model covers only the in-place sort of `sortTasks` (State.TaskStore.ReorderUnsaved), and it does not model the sort order, which is `localeCompare`-based. Other writes through the returned array or object are not modelled. `applyTheme` only touches the page.
- `editingTaskId` and `sortDirection`: they are only reset by `init` and never read by the modelled code.
- Unicode: whitespace, `\w`, `\d`, line terminators and case folding are ASCII-only.
  - The title pattern's `\S` treats a non-ASCII space (such as U+00A0) as a letter.
  - `.` is taken to refuse only `\n` and `\r`, not U+2028 or U+2029.
  - `toLowerCase` leaves non-ASCII letters unchanged.
- Numbers: durations are exact reals.
  - `parseFloat`, `toFixed` and IEEE rounding are not modelled; a `TaskInput` carries the already-parsed duration.
  - A JavaScript number value is carried as its `String()` text.
  - JsValues.Num accepts any text, not only a text `String()` can print for a number (`Num("abc")` is a value of the type). Lemmas that quantify over JavaScript values therefore also range over such texts; for those, `Number()` is read off the text as for a canonical one.
  - `Number(text)` is classified only as NaN, negative or non-negative. An underflowing text such as "-1e-400" is classed as negative, although JavaScript gives -0.
- The daily target is taken as the number `settings.dailyTarget \|\| 0` has already produced.
- Date arithmetic (`new Date()`, `toISOString`): the clock, "now", "today" and the seven trend days are parameters.
- The regular-expression engine of `regexSearch`: the compiled pattern is a parameter, with `None` standing for a pattern that throws.
- `highlightMatches` is specified by the term it searches for, i.e. the trimmed query; the compilation of the escaped pattern into a case-insensitive literal match is not modelled.
- Search.HighlightMatches: its own contract states only the unchanged cases; the marked output is stated by Search.HighlightIsSegments together with Search.Segments and Search.SegmentsGreedy.
- The `maxDuration` of `renderWeekTrend` (scripts/ui.js:488): it is computed but never used.
- The rest of scripts/ui.js: DOM rendering, event handlers, page routing, `localeCompare` sorting and the date windows.
  - This includes the call to the undefined `State.saveSettings` (scripts/ui.js:889).
  - It includes an array passed where `importTasks` expects text (scripts/ui.js:939).
  - It includes the unreachable catch around `regexSearch` (scripts/ui.js:805-811).
- scripts/main.js: page bootstrapping, not part of this model.

## Findings

| source | as written | input that shows it | evidently intended | confidence | as-written member | corrected member |
|---|---|---|---|---|---|---|
| scripts/ui.js:409-421 | the tag counts live in a plain object `{}`; a tag named like an inherited property (`constructor`, `toString`, `valueOf`, …) reads back a function, so its "count" becomes a string and `> maxCount` is false | one task tagged "constructor" (a valid tag) | the most common tag is "constructor" | not executed | Dashboard.TopTagAsWritten, Dashboard.ConstructorTagIgnored | Dashboard.TopTag |
