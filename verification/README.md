# Chronological Premiere Pro sequence builder, modelled in Dafny

`create_chronological_prpro_seq.py` builds a Premiere Pro sequence from a
folder of photos and videos, placing every item in the order in which it
was taken. The script works in two parts:

1. **Sort the files.** It reads each file's shell metadata and normalises
   the five date columns to the fixed `%m/%d/%Y %I:%M %p` form. It takes
   the earliest of the dates that parse as the file's datetime. It works
   out the file's (height, width) from a chain of fallbacks. Finally it
   sorts the records by datetime with Python's stable sort.
2. **Build the sequence.** It flattens the project's bin tree into a map
   from file path to project item. It reads a template sequence whose clips
   teach it, per (height, width), the Motion scale of a video and the
   duration and scale keyframes of a photo. It then places every sorted
   record end to end on the new sequence's first video track. Each record
   gets the profile whose height is nearest its own.

The model keeps the script's form:

- Pure code becomes functions with lemmas. This covers date cleaning,
  parsing, the path mapping, the first-match lookups and the
  nearest-height match.
- Each loop becomes a method proved equal to a prefix-recursive
  specification function. These are the date-field loops, the resolve
  loop of `sort_files`, the template loop and the placement loop.
- The recursive bin walk of `memoize_bins` stays a recursive method,
  `ProjectPaths.BinCatalogue.Walk`. Its new catalogue is `CatalogueOnto`
  of the old one over `Leaves` of the children. `Leaves` flattens the bins
  in walk order, and `CatalogueOnto` stores each leaf in turn; both recurse
  on the head of their sequence.
- The two objects the script updates in place become classes:
  - the running `bin_dict` and `total` of `memoize_bins` become
    `ProjectPaths.BinCatalogue`;
  - the cursor and the track of `add_clips_to_sequence` become
    `Assembly.Timeline`.

The host is not modelled. The shell's metadata, OpenCV's decoding, the
template sequence's clips and the project's bin tree are inputs.

Modules:

- `Wrappers`: `Option` and `Result`.
- `PyStr`: `str.split`, `str.index`, clamped slices, `int()` and `lower()`.
- `PyPath`: `ntpath.splitext` and `ntpath.join`.
- `DateTimes`: the datetime, its order, and its format and parser.
- `DateCleaning`: `clean_date_string`.
- `Metadata`: the date-field loops, the earliest date and the dimension fallback.
- `Chronology`: `sort_files`.
- `ProjectPaths`: the tree-path mapping, `memoize_bins` and `get_clip_filesys_info`.
- `Profiles`: `read_config_sequence` and `calculate_closest_dimensions`.
- `Assembly`: `add_clips_to_sequence`.

In one place the code departs from the obvious reading; the model follows the code:

- **Dimension fallback.** If a photo's `Height` parses but its `Width` does
  not, and neither the `Dimensions` text nor the decoder gives a size, the
  code has already stored the height. The photo therefore gets
  (height, 0), not (0, 0). The same holds for a video's `Frame height`
  when no capture opens. See `Metadata.PartialHeight`.

Three defects are modelled as their evident intent. Comments in the model
say so.

- `calculate_closest_dimensions` (line 254) iterates `media_dict.keys`
  without calling it. That would raise a TypeError. The model iterates the
  keys.
- `main` (line 333) binds the `(dict, count)` pair that `memoize_bins`
  returns as `bin_dict`. The placement loop is given the dict.
- `add_clips_to_sequence` (line 276) sets a video's scale with `SetValue`.
  The binding's method is `setValue`, and every other call in the script is
  lower camel case. The misspelt name would raise an AttributeError, which
  the `except KeyError` at line 292 does not catch. The model sets the scale
  (`Assembly.Placed`).

The as-written members of the two Findings below keep these three
corrections. They model only the defect each finding names.

## Model

| member | source | states |
|---|---|---|
| PyStr.Split | create_chronological_prpro_seq.py:34 | `str.split` gives at least one part; a string without the separator is its own only part |
| PyStr.SplitParts | create_chronological_prpro_seq.py:34 | no part holds the separator, and joining the parts with it gives back the string |
| PyStr.SplitJoinWith | create_chronological_prpro_seq.py:173 | splitting a join of separator-free parts gives back the parts |
| PyStr.IndexOf | create_chronological_prpro_seq.py:42-43 | `str.index` finds the first occurrence, and fails exactly when the character is absent |
| PyStr.ParseInt | create_chronological_prpro_seq.py:100-111 | `int()` accepts only an optionally signed digit string; a digit string is read as its decimal value, and a signed one as that value negated for '-' and unchanged for '+' |
| PyStr.ParseIntDecimal | create_chronological_prpro_seq.py:100-111 | `int()` reads back the decimal text of every natural number |
| PyStr.Lower | create_chronological_prpro_seq.py:98 | `lower()` leaves no capital letter, keeps every other character, and turns each capital into its small letter |
| PyStr.LowerIdempotent | create_chronological_prpro_seq.py:98 | lowering twice is lowering once |
| PyPath.RFind | create_chronological_prpro_seq.py:98 | the last occurrence of a character, or -1 when there is none |
| PyPath.Extension | create_chronological_prpro_seq.py:98 | `splitext` gives an empty extension or a suffix of the path that starts with its only dot |
| PyPath.ExtensionOfName | create_chronological_prpro_seq.py:98 | the extension of `dir + stem + "." + e` is `"." + e` when the stem is not all dots |
| PyPath.NoDotNoExtension | create_chronological_prpro_seq.py:98 | a file name without a dot has no extension |
| PyPath.Join | create_chronological_prpro_seq.py:176 | `ntpath.join` of a root and components; its contract is stated by `PyPath.JoinPlain` |
| PyPath.IsVideoPath | create_chronological_prpro_seq.py:98 | a path is a video when its lower-cased extension is one of the video extensions; stated for concrete names by `PyPath.ExtensionOfName` and `PyPath.NoDotNoExtension` |
| PyPath.JoinPlain | create_chronological_prpro_seq.py:176 | joining plain components under a root puts one backslash before each |
| DateTimes.Before | create_chronological_prpro_seq.py:131 | the datetime `<` that `min` and `sorted` use; its contract is stated by `DateTimes.BeforeStrict`, `DateTimes.BeforeTotal` and `DateTimes.ClockOrder` |
| DateTimes.BeforeStrict | create_chronological_prpro_seq.py:157 | the datetime order is irreflexive and transitive, and so is "not before" |
| DateTimes.BeforeTotal | create_chronological_prpro_seq.py:157 | of two distinct valid datetimes, one is before the other |
| DateTimes.ClockOrder | create_chronological_prpro_seq.py:91 | on one day, AM comes before PM, and 12 o'clock comes before every other hour of its half |
| DateTimes.Pad2 | create_chronological_prpro_seq.py:24-26 | a two-digit zero-padded field |
| DateTimes.Format | create_chronological_prpro_seq.py:91 | the padded `%m/%d/%Y %I:%M %p` text of a datetime is 19 characters long |
| DateTimes.FormatFields | create_chronological_prpro_seq.py:91 | that text is month/day/year, a space, hour:minute, a space, the marker |
| DateTimes.Parse | create_chronological_prpro_seq.py:91 | `strptime` with the fixed pattern yields only valid calendar datetimes |
| DateTimes.ParseFormat | create_chronological_prpro_seq.py:91 | parsing the formatted text of a valid datetime gives it back |
| DateTimes.FormatParse | create_chronological_prpro_seq.py:91 | text that parses is the datetime's formatted text, except for the case of the AM/PM marker |
| DateTimes.TwoDigitsOfPad | create_chronological_prpro_seq.py:91 | a two-digit field reads back as its value |
| DateTimes.ParseMeridiem | create_chronological_prpro_seq.py:91 | `%p` accepts exactly the texts that lower-case to "am" or "pm", and every such text gives its marker |
| DateCleaning.StripMarks | create_chronological_prpro_seq.py:32 | no U+200E or U+200F remains, and text without them is unchanged |
| DateCleaning.StripMarksKeeps | create_chronological_prpro_seq.py:32 | every other character keeps its number of occurrences |
| DateCleaning.StripMarksAppend | create_chronological_prpro_seq.py:32 | removal works piece by piece over a concatenation |
| DateCleaning.Clean | create_chronological_prpro_seq.py:28-45 | a missing value becomes "NA"; a value without '/' is an error; cleaning adds at most three characters |
| DateCleaning.PadDate | create_chronological_prpro_seq.py:34-40 | month and day padding add at most two characters; no '/' is an error |
| PyStr.Take | create_chronological_prpro_seq.py:40 | the slice `s[:n]`, clamped to the string: at most n characters and a prefix of it; what the day padding builds with it is stated by `DateCleaning.PadDateFields` |
| PyStr.Drop | create_chronological_prpro_seq.py:40 | the slice `s[n:]`, clamped: `s[:n] + s[n:] == s`; what the day padding builds with it is stated by `DateCleaning.PadDateFields` |
| DateCleaning.PadDateFields | create_chronological_prpro_seq.py:34-40 | `m/d/rest` becomes padded month / padded day / rest |
| DateCleaning.PadHour | create_chronological_prpro_seq.py:42-44 | hour padding adds at most one character |
| DateCleaning.PadHourFields | create_chronological_prpro_seq.py:42-44 | a one-digit hour after the 10-character date gains one leading zero and nothing else changes |
| DateCleaning.ShellField | create_chronological_prpro_seq.py:24-26 | a shell field has one digit exactly when it is unpadded and below 10 |
| DateCleaning.PaddedShellField | create_chronological_prpro_seq.py:24-26 | padding a shell field gives the two-digit field |
| DateCleaning.PadDateShellText | create_chronological_prpro_seq.py:34-40 | a shell date with any mix of padded fields has its month and day padded |
| DateCleaning.PadHourShellText | create_chronological_prpro_seq.py:42-44 | after that, hour padding yields the datetime's formatted text |
| DateCleaning.CleanShellText | create_chronological_prpro_seq.py:28-45 | any shell rendering of a valid datetime, marks anywhere, cleans to its padded text, which parses back to it |
| DateCleaning.CleanKeepsPadded | create_chronological_prpro_seq.py:28-45 | an already padded date is left unchanged |
| DateCleaning.CleanCommentExample | create_chronological_prpro_seq.py:25-26 | "1/2/2022 2:41 PM" cleans to "01/02/2022 02:41 PM" |
| Metadata.Get | create_chronological_prpro_seq.py:74 | `dict.get`, with `None` for a missing column; what the date loop does with it is stated by `Metadata.NormalizedFields` |
| Metadata.NormalizedFields | create_chronological_prpro_seq.py:73-74 | normalising (each field read with `dict.get`, a missing one as `None`) succeeds exactly when every date field cleans; each field then holds its cleaned value, other columns are unchanged, and every date field is present |
| Metadata.NormalizedKeeps | create_chronological_prpro_seq.py:73-74 | a column the date loop does not clean keeps its value, or stays absent |
| Metadata.NormalizeDateFields | create_chronological_prpro_seq.py:73-74 | the field loop computes the normalised map or its first failure |
| Metadata.ParsedDatesSpec | create_chronological_prpro_seq.py:88-91 | the dates are collected exactly when every non-"NA" field parses; each date comes from a non-"NA" field, and every such field's date is collected |
| Metadata.CollectDates | create_chronological_prpro_seq.py:88-91 | the date loop computes the collected dates or its first failure |
| Metadata.MinDate | create_chronological_prpro_seq.py:131 | `min` returns one of the dates, and no date is before it |
| Metadata.FieldInt | create_chronological_prpro_seq.py:100-111 | an integer is read only from a present column whose text is a sign or digit followed by digits; a present all-digit column is read as its decimal value, and a signed one as that value with its sign |
| Metadata.DigitRun | create_chronological_prpro_seq.py:78 | `\d+` takes the longest run of digits |
| Metadata.SearchDimsText | create_chronological_prpro_seq.py:116-118 | in text with no digit before `w x h`, `re.search` finds width w and height h |
| Metadata.SearchDims | create_chronological_prpro_seq.py:116 | `re.search(r'(\d+) x (\d+)')`; its contract is stated by `Metadata.DigitRun` and `Metadata.SearchDimsText` |
| Metadata.ResolveDimensions | create_chronological_prpro_seq.py:95-126 | the dimension fallback chain; its contract is stated by `Metadata.DimensionFallback`, `Metadata.DimensionsText` and `Metadata.PartialHeight` |
| Metadata.DimensionFallback | create_chronological_prpro_seq.py:95-126 | a video with both frame columns takes them; without `Frame height` it takes the decoder's size or (0, 0); with `Frame height` h but no `Frame width`, the decoder's size or (h, 0). A photo with both Height and Width takes them; otherwise a `Dimensions` text that reads `w x h` gives (h, w); otherwise the decoder's size, else the Height parsed before the failure with width 0 |
| Metadata.DimensionsText | create_chronological_prpro_seq.py:115-118 | a photo without Height whose `Dimensions` reads `w x h` gets height h and width w |
| Metadata.PartialHeight | create_chronological_prpro_seq.py:109-125 | a photo with a Height but no Width, no `Dimensions` and no decoding keeps the height and gets width 0 |
| Metadata.DateFieldsDistinct | create_chronological_prpro_seq.py:21 | the five date columns are distinct |
| Metadata.Resolve | create_chronological_prpro_seq.py:83-133 | one file's record; its contract is stated by `Metadata.ResolveEarliest` and `Metadata.ResolveFails` |
| Metadata.ResolveEarliest | create_chronological_prpro_seq.py:88-131 | the record keeps the file's path, its datetime is one of the parsed candidate fields, no candidate is before it, and its height and width are the dimension fallback of the shell's own columns |
| Metadata.ResolveFails | create_chronological_prpro_seq.py:88-131 | a file fails exactly when a date field does not clean, a cleaned non-"NA" date does not parse, or every field is "NA" |
| Metadata.GetEarliestDateAndDimensions | create_chronological_prpro_seq.py:83-133 | the method computes `Resolve` of the file |
| Chronology.CollectSpec | create_chronological_prpro_seq.py:148-153 | the records (one `Resolve` outcome per file, in discovery order) are collected exactly when every file resolves, one per file, in order |
| Chronology.Insert | create_chronological_prpro_seq.py:157 | inserting adds exactly that record |
| Chronology.SortByTime | create_chronological_prpro_seq.py:157 | the sort is a permutation of its input |
| Chronology.InsertSorted | create_chronological_prpro_seq.py:157 | inserting into a sorted list keeps it sorted |
| Chronology.SortByTimeSorted | create_chronological_prpro_seq.py:157 | the result is non-decreasing by datetime and a permutation of the input |
| Chronology.InsertWithTime | create_chronological_prpro_seq.py:157 | an inserted record goes after every record that sorts as equal to it |
| Chronology.SortByTimeStable | create_chronological_prpro_seq.py:157 | records with equal datetimes keep their discovery order |
| Chronology.MorningFirst | create_chronological_prpro_seq.py:157 | 2:41 PM and 9:05 AM of one day sort as 9:05 AM first |
| Chronology.SortedRecords | create_chronological_prpro_seq.py:136-164 | the collected records sorted by datetime; its contract is stated by `Chronology.CollectSpec`, `Chronology.SortByTimeSorted` and `Chronology.SortByTimeStable` |
| Chronology.SortFiles | create_chronological_prpro_seq.py:136-164 | the loop computes the sorted records, or the first failure |
| ProjectPaths.DropParts | create_chronological_prpro_seq.py:173 | the `[3:]` of the split tree path; what it leaves is stated by `ProjectPaths.TreePathSegments` |
| ProjectPaths.BinTreePathToFilepath | create_chronological_prpro_seq.py:169-176 | the tree path's parts after the third, joined under the root; its contract is stated by `ProjectPaths.TreePathToFilepath` and `ProjectPaths.TreePathSegments` |
| ProjectPaths.TreePathToFilepath | create_chronological_prpro_seq.py:169-176 | `\project\parent\segments` maps to the root, a backslash, and the segments joined by backslashes |
| ProjectPaths.TreePathSegments | create_chronological_prpro_seq.py:173 | splitting such a tree path and dropping three parts with `[3:]` leaves exactly the segments |
| ProjectPaths.TreePathExample | create_chronological_prpro_seq.py:171-175 | the tree path in the source's comment maps to `..\Tim's Photos\IMG_7079.mov` |
| ProjectPaths.LeavesAppend | create_chronological_prpro_seq.py:183-190 | the leaves of two lists of children are the leaves of each, in order |
| ProjectPaths.CatalogueOntoSpec | create_chronological_prpro_seq.py:186-189 | a path is catalogued exactly when it was there before or some leaf has it, and it then holds the last such leaf |
| ProjectPaths.CatalogueOntoSize | create_chronological_prpro_seq.py:186-189 | the catalogue grows by at most one entry per leaf |
| ProjectPaths.BinCatalogue.constructor | create_chronological_prpro_seq.py:193 | the walk starts with an empty dict and a zero count |
| ProjectPaths.BinCatalogue.Walk | create_chronological_prpro_seq.py:182-192 | the recursive walk stores each leaf of the children under its path, in walk order, and counts every leaf visited |
| ProjectPaths.MemoizeBins | create_chronological_prpro_seq.py:180-193 | the catalogue and count of a bin's whole tree |
| ProjectPaths.MemoizedCatalogue | create_chronological_prpro_seq.py:180-193 | the keys are exactly the leaf paths; each holds the last leaf with that path; there are no more entries than leaves |
| ProjectPaths.FindRecord | create_chronological_prpro_seq.py:201 | `next(...)` gives nothing exactly when no record has the path, else the first record that has it |
| ProjectPaths.GetClipFilesysInfo | create_chronological_prpro_seq.py:198-201 | the first record whose file name is the clip's mapped path; its contract is stated by `ProjectPaths.FindRecord` and `ProjectPaths.TreePathToFilepath` |
| Profiles.PutSpec | create_chronological_prpro_seq.py:233-242 | storing under a key overwrites only that entry, and a new key goes last in insertion order |
| Profiles.FindSequence | create_chronological_prpro_seq.py:207 | the template is the first sequence with the name, or nothing when no sequence has it |
| Profiles.ProfileStepSpec | create_chronological_prpro_seq.py:216-242 | a clip without a record adds nothing; a video stores only its scale; a photo stores its duration and both scale keys; the entry goes under the record's (height, width) |
| Profiles.ProfileStep | create_chronological_prpro_seq.py:216-242 | one template clip's update of the tables; its contract is stated by `Profiles.ProfileStepSpec` |
| Profiles.ProfilesOf | create_chronological_prpro_seq.py:212-242 | the tables after every template clip; its contract is stated by `Profiles.ProfilesOfValid` and `Profiles.LastClipWins` |
| Profiles.ConfigProfiles | create_chronological_prpro_seq.py:206-248 | the template's tables, or an error when it is missing; its contract is stated by `Profiles.ReadConfigSequence` |
| Profiles.ProfilesOfValid | create_chronological_prpro_seq.py:212-242 | both tables stay well formed |
| Profiles.LastClipWins | create_chronological_prpro_seq.py:233-242 | the last clip with a given (height, width) decides its entry |
| Profiles.ReadConfigSequence | create_chronological_prpro_seq.py:206-248 | a missing template is an error; otherwise the loop computes the tables of its clips, well formed |
| Profiles.ClosestIndex | create_chronological_prpro_seq.py:254 | the chosen key is nearest in height, and every earlier key is strictly farther |
| Profiles.CalculateClosestDimensions | create_chronological_prpro_seq.py:253-254 | an empty table is an error; otherwise the result is one of the table's keys, no key is nearer in height, and every key before it is strictly farther |
| Profiles.WidthIgnored | create_chronological_prpro_seq.py:254 | widths play no part in the match |
| Assembly.Step | create_chronological_prpro_seq.py:264-295 | one record of the placement loop; its contract is stated by `Assembly.StepSpec` |
| Assembly.Placed | create_chronological_prpro_seq.py:268-290 | one found item placed at the cursor; its contract is stated by `Assembly.PlacedSpec`, `Assembly.PhotoPlacement` and `Assembly.VideoPlacement` |
| Assembly.Run | create_chronological_prpro_seq.py:264-295 | the placement loop over all records; its contract is stated by `Assembly.RunContiguous`, `Assembly.CursorMonotone`, `Assembly.RunPlacesFound` and `Assembly.RunStops` |
| Assembly.PlacedSpec | create_chronological_prpro_seq.py:268-290 | placing adds one clip for the item at the cursor, not running backwards; the cursor moves to its end, or stays when the run ends |
| Assembly.StepSpec | create_chronological_prpro_seq.py:264-295 | one record keeps the clips contiguous, never moves the cursor back, and a record missing from the item map changes nothing |
| Assembly.RunContiguous | create_chronological_prpro_seq.py:261-290 | from cursor 0, clips lie end to end, and the cursor stands at the last clip's end |
| Assembly.CursorMonotone | create_chronological_prpro_seq.py:290 | the cursor never decreases over the records |
| Assembly.RunPlacesFound | create_chronological_prpro_seq.py:264-295 | a run not ended by an error has placed exactly the items of the catalogued records, in order |
| Assembly.PhotoPlacement | create_chronological_prpro_seq.py:279-290 | a photo ends at the cursor plus its nearest profile's duration, with scale and position keys at that start and that end, and the cursor moves there |
| Assembly.VideoPlacement | create_chronological_prpro_seq.py:274-290 | a video keeps its item's duration, takes its nearest profile's scale, and moves the cursor to its end |
| Assembly.Timeline.constructor | create_chronological_prpro_seq.py:260-262 | an empty track with the cursor at 0 |
| Assembly.Timeline.Place | create_chronological_prpro_seq.py:265-295 | one iteration leaves the timeline as `Step` says: unchanged for a missing file, else the item placed at the cursor |
| Assembly.Timeline.PlaceVideo | create_chronological_prpro_seq.py:268-276 | inserting a video and setting its scale gives the placement `Placed` describes |
| Assembly.Timeline.PlacePhoto | create_chronological_prpro_seq.py:268-290 | inserting a photo, setting its end and keyframes gives the placement `Placed` describes |
| Assembly.AddClipsToSequence | create_chronological_prpro_seq.py:258-295 | the loop computes the corrected run, stopping at an uncaught error |
| Assembly.RunStops | create_chronological_prpro_seq.py:264-295 | once an error has ended the run, later records change nothing |
| Assembly.StepAsWritten | create_chronological_prpro_seq.py:270 | one record as written, looking the new clip up at the record's index; its contract is stated by `Assembly.SkipBreaksClipLookup` |
| Assembly.PlacedAsWritten | create_chronological_prpro_seq.py:281-292 | a found item placed as written, where a photo's scale lookup raises after the insert; its contract is stated by `Assembly.PhotoCursorStallsAsWritten` |
| Assembly.RunAsWritten | create_chronological_prpro_seq.py:264-295 | the placement loop as written; its contract is stated by `Assembly.SkipBreaksClipLookup` and `Assembly.PhotoCursorStallsAsWritten` |
| Assembly.SkipBreaksClipLookup | create_chronological_prpro_seq.py:270 | as written, a skipped record makes the next one's clip lookup fail |
| Assembly.PhotoCursorStallsAsWritten | create_chronological_prpro_seq.py:285-290 | as written, the cursor is not advanced, so the second photo is inserted at time 0 like the first; corrected, the second starts where the first ends |

## Left out

- The Windows shell metadata query (`get_file_metadata`, lines 53-71) is a host call.
  - Its result is an input map from column name to value, holding only the non-empty values.
  - The model accepts any map. An empty value, which the query never stores (line 70), gets the error `clean_date_string` raises for text without a '/'.
  - Only the date loop that follows it is modelled.
- OpenCV decoding (lines 103-106, 121-123) is a foreign library. It is an input: the (height, width) a capture or image read would give, if any.
- The directory walk and its filter (lines 141-143) are file-system I/O. `sort_files` is given the files it would find.
- The JSON cache is file I/O (lines 161-162, 319-321). It also does not round-trip, because `default=str` writes datetimes as strings.
- The pymiere host calls are not modelled:
  - sequence creation and lookup, and `getSettings`/`setSettings`;
  - the alert, the progress and warning messages, and the exit codes;
  - the effects of `insertClip`, `addKey` and `setTimeVarying` beyond the placed-clip record.
- A missing template sequence is an error value rather than `exit(1)`. The sequence settings it would return are not modelled.
- Premiere times and ticks are plain integers.
- `main` is not modelled. Its lookup of the parent bin is an input.
- The Motion, Scale and Position component lookups (`next(...)` without a default) are assumed to succeed. The StopIteration they could raise is not modelled.
- Files whose metadata fails to clean or parse, or which have no date at all, stop `sort_files` with an error value. The script would end with the corresponding Python exception.
- DateTimes.Parse: stricter than `strptime`. It accepts only the zero-padded 19-character form with single ASCII spaces. Cleaning pads the fields, but it keeps whatever whitespace the shell wrote, such as a narrow no-break space (U+202F) before AM/PM. `strptime` accepts such whitespace and unpadded fields; the model rejects them as a parse error.
- PyStr.ParseInt: reads ASCII digits only. Python's `int()` also accepts other Unicode decimal digits, surrounding whitespace and digit underscores.
- Metadata.SearchDims: `\d` is taken as the ASCII digits. Python's `re` also matches other Unicode decimal digits.
- PyStr.Lower: lowers ASCII letters only; the model has no Unicode case mapping.
- Assembly.PlacedAsWritten: an insert at a time that a clip already occupies is recorded without shifting the later clips, as Premiere's insert edit would. Assembly.RunAsWritten inherits this.
- PyPath.Join: models `ntpath.join` without drive letters or UNC prefixes.
- Timezone rules, live-pair timestamp sharing, a filename-suffix tie-break, raw-format exclusion and a keyframe one frame before the clip's end are not in this program.

## Findings

| source | as written | input that shows it | evidently intended | confidence | as-written member | corrected member |
|---|---|---|---|---|---|---|
| create_chronological_prpro_seq.py:270 | the new clip is looked up at the record's index in the sorted list (shown with the corrections at lines 254, 276 and 333 in place) | a record missing from the item map, then a catalogued photo: index 1 on a track that holds one clip | the clip just inserted | not executed | Assembly.SkipBreaksClipLookup | Assembly.RunPlacesFound |
| create_chronological_prpro_seq.py:285-288 | the scale key values are read from the photo table by value name, not under the matched (height, width) (shown with the corrections at lines 254, 276 and 333 in place) | two catalogued photos with a non-empty photo table: the KeyError is caught after the clip was inserted, so the cursor is not advanced and the second photo is inserted at the same time as the first | read both values from the matched profile and advance the cursor by the new duration | not executed | Assembly.PhotoCursorStallsAsWritten | Assembly.PhotoPlacement |
