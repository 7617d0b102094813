# TimelineBuilder: a Dafny model of the text-to-timeline core

TimelineBuilder asks a language model for the key events of a historical topic. It turns
the plain-text reply into `(Task, Date, Category)` records and draws them as markers on a
date axis. This project models the deterministic part of `TimelineBuilder.py` and proves
properties of it:

- **Block splitting** (`BlockSplit`): `re.split(r'\n\s*\n', text)`. A separator is a
  newline, whitespace, and a newline, and the leftmost-longest separator is cut each time.
- **Field search** (`FieldSearch`): `re.search(r'Label:\s*(.+)', block, re.IGNORECASE)`
  for the labels `Event:`, `Date:` and `Category:`. The group's greedy backtracking is
  modelled exactly.
- **Date interpretation** (`DateInterpreter`): `parse_date`. The model covers stripping,
  the empty-input guard, the date-range reduction, the future-year guard, and the
  conversion to a timestamp. The fuzzy parser, the clock and the timestamp type are
  parameters (`DateEnv`).
- **Extraction** (`EventExtractor`): the loop that walks the blocks, fills a per-block
  record field by field and appends complete records. It is a method proved equal to a
  specification function, with lemmas about that function.
- **Plot data** (`TimelinePlot`): `truncate_text`, the alternating lanes
  `[i % 2 for i in range(n)]`, and the empty-list guard of `create_timeline_plot`.

The supporting modules are:

- `PyText`: Python's `str.isspace`, `strip`, `rfind` and ASCII case folding.
- `Scan`: the leftmost-match scan of the regex engine.
- `FilterMap`: the shape of a loop that keeps the values it computes, in order.
- `Wrappers`: `Option`.

Behaviour of the code a reader may not expect. The model follows the code in each case:

- The label search is not anchored to the start of a line, although the prompt asks for
  one field per line (TimelineBuilder.py:67-73). In the block `Event: Candidate: 1848`,
  the label `date:` inside `Candidate:` is found, so the date field is `1848`
  (`FieldSearch.DateInsideWord`).
- `\s*` after the colon crosses newlines. A label with nothing after it on its line takes
  the next line as its value (`FieldSearch.EmptyLineTakesNext`).
- The comments at TimelineBuilder.py:42-45 describe a range date as reduced to its first
  day and its year. The text kept after the first day in fact starts at the *last* comma
  of the whole text, not at the comma after the range. For
  `July 19-20, 1848, Seneca Falls`, the parser receives `July 19, Seneca Falls`
  (`DateInterpreter.RangeLastComma`).
- Descriptions and categories may be empty. A label followed only by blanks up to the end
  of its block still matches, because `.+` backs off to take the last blank. The value
  then strips to the empty string, and the record is kept if the other fields are present
  (`FieldSearch.BlankValueAtEnd`).

## Model

| member | source | states |
|---|---|---|
| PyText.Strip | TimelineBuilder.py:35 | the stripped text is empty exactly when the input is all Python whitespace; otherwise it starts and ends with a non-space character |
| PyText.StripExact | TimelineBuilder.py:35 | whitespace around a text that has no space at its ends is exactly what strip removes |
| PyText.StripIdempotent | TimelineBuilder.py:35 | stripping twice is stripping once |
| PyText.LastIndexOf | TimelineBuilder.py:46 | `rfind` gives the index of the last occurrence of the character, or none exactly when the character is absent |
| Scan.FirstFromLeftmost | TimelineBuilder.py:102 | the scan returns the leftmost position where the pattern matches, and none only when no position matches |
| Scan.FirstFrom | TimelineBuilder.py:102 | the left-to-right scan of start positions: a position it returns lies in the range scanned and the pattern matches there |
| Scan.FirstFromIs | TimelineBuilder.py:112 | a position that matches, with no earlier match, is the one the scan finds |
| BlockSplit.SeparatorEndLongest | TimelineBuilder.py:102 | at a position, the separator `\n\s*\n` found is a separator and no longer one exists there; when none is found, no separator starts there |
| BlockSplit.SeparatorEnd | TimelineBuilder.py:102 | the greedy, backtracking match of `\n\s*\n` at one position: a match found ends past its starting newline and inside the text (characterised by SeparatorEndLongest) |
| BlockSplit.FirstSeparatorLeftmost | TimelineBuilder.py:102 | the separator used for a cut is the leftmost one in the text |
| BlockSplit.FirstSeparator | TimelineBuilder.py:102 | the next cut of `re.split`: a separator found is a match of `\n\s*\n` at its start position, ending inside the text (leftmost by FirstSeparatorLeftmost) |
| BlockSplit.Split | TimelineBuilder.py:102 | splitting always yields at least one block |
| BlockSplit.SplitNoBlankLine | TimelineBuilder.py:102 | no block produced by the split contains a blank-line separator |
| BlockSplit.SplitJoin | TimelineBuilder.py:102 | blocks joined by blank-line separators split back into exactly those blocks |
| BlockSplit.SplitNoSeparator | TimelineBuilder.py:102 | a text in which no blank-line separator occurs is one block |
| BlockSplit.SplitStandalone | TimelineBuilder.py:102 | a standalone block, one that holds no blank line even when framed by newlines, is split into itself |
| BlockSplit.SplitTiles | TimelineBuilder.py:102 | splitting loses nothing: there are separators, one between each pair of adjacent blocks, such that the blocks joined by them rebuild the text |
| FieldSearch.GroupAtIsMatch | TimelineBuilder.py:112 | the group of `\s*(.+)` found after a label is a match of that pattern, and of all matches it starts last and, among those, ends last, as greedy backtracking chooses; none is found only when no match exists |
| FieldSearch.GroupAt | TimelineBuilder.py:112 | the backtracking match of `\s*(.+)` after a label: a group found is non-empty and lies after the label (characterised by GroupAtIsMatch) |
| FieldSearch.SearchLeftmost | TimelineBuilder.py:112-126 | the case-insensitive search reports the leftmost position where the label and a group match, and reports nothing only when no position matches |
| FieldSearch.Search | TimelineBuilder.py:112-126 | `re.search` with `re.IGNORECASE`, the case-insensitive label comparison being `LabelAt`: a position found has the label and a group of `\s*(.+)` after it (leftmost by SearchLeftmost) |
| FieldSearch.FieldGroup | TimelineBuilder.py:112-126 | a matched group is non-empty and lies on a single line |
| FieldSearch.FieldValue | TimelineBuilder.py:113-126 | a field value is one line with no whitespace at either end |
| FieldSearch.FieldMissing | TimelineBuilder.py:112-126 | a field is missing exactly when the label followed by a value occurs nowhere in the block |
| FieldSearch.FirstLabelDecides | TimelineBuilder.py:112 | the first place the label is spelt decides: the search succeeds there if a value follows it, and fails otherwise |
| FieldSearch.FieldValueOfLine | TimelineBuilder.py:112-114 | when the first spelling of a label is followed by blanks and then a line, the field is that line, stripped |
| FieldSearch.DateInsideWord | TimelineBuilder.py:118 | the unanchored search finds `date:` inside `Candidate:` |
| FieldSearch.EmptyLineTakesNext | TimelineBuilder.py:112 | a label alone on its line takes the next line as its value |
| FieldSearch.BlankValueAtEnd | TimelineBuilder.py:112-114 | a block that is exactly `Event:` followed by one or more blanks and no newline has a match, and its event value is the empty string |
| FieldSearch.BlankField | TimelineBuilder.py:112-114 | in any block, when the first spelling of a label (one not ending in whitespace, as `Event:`, `Date:` and `Category:` do not) is followed by a group made only of blanks, the field is present and its value is the empty string |
| DateInterpreter.RangeAt | TimelineBuilder.py:43 | a reported match satisfies the range pattern `(\w+ \d+)-\d+, \d+` at the start of the text |
| DateInterpreter.RangeUnique | TimelineBuilder.py:43 | any way the range pattern matches is the one reported |
| DateInterpreter.RangeAtNone | TimelineBuilder.py:43 | when no match is reported, the pattern matches in no way |
| DateInterpreter.ParserInput | TimelineBuilder.py:43-49 | text that does not match the range pattern reaches the parser unchanged |
| DateInterpreter.ParseDate | TimelineBuilder.py:30-63 | blank text gives no date; a date given has a year no later than the current one, is representable as a timestamp, and is what the fuzzy parser makes of the stripped and range-reduced text |
| DateInterpreter.ParseDateAccepts | TimelineBuilder.py:47-59 | whatever the parser returns within the guards is the result: the guards reject nothing else |
| DateInterpreter.BlankIgnoresParser | TimelineBuilder.py:35-37 | blank text gives no date whatever the parser, the clock and the timestamp type are |
| DateInterpreter.ParseDateStripped | TimelineBuilder.py:35 | stripping the text beforehand changes nothing |
| DateInterpreter.RangeKeepsFirstDay | TimelineBuilder.py:43-46 | for `Month D1-D2` followed by `, ` and a digit, the parser gets `Month D1` followed by the text from its last comma |
| DateInterpreter.RangeReduction | TimelineBuilder.py:43-47 | with a single comma, `Month D1-D2, Year...` is reduced to `Month D1, Year...` |
| DateInterpreter.RangeLastComma | TimelineBuilder.py:46 | the kept suffix starts at the last comma of the text, even when it follows the year |
| DateInterpreter.SenecaFallsRange | TimelineBuilder.py:42-46 | `July 19-20, 1848` is handed to the parser as `July 19, 1848` |
| EventExtractor.BlockDate | TimelineBuilder.py:117-121 | a block date exists only when the date field does, and its year is not in the future |
| EventExtractor.BlockFields | TimelineBuilder.py:109-126 | the task and category values set are trimmed single lines |
| EventExtractor.BlockRecord | TimelineBuilder.py:105-129 | a blank block gives no record; every record is clean |
| EventExtractor.BlockRecordFields | TimelineBuilder.py:109-129 | a block gives a record exactly when it is not blank, has event and category matches, and has a date match that parses; the record holds exactly those values |
| EventExtractor.RecordsClean | TimelineBuilder.py:104-129 | every extracted record has a trimmed one-line task and category and a date not in the future |
| EventExtractor.RecordsAtMostNonBlank | TimelineBuilder.py:102-131 | there are no more records than non-blank blocks |
| EventExtractor.RecordsAppend | TimelineBuilder.py:104-129 | records keep block order: the records of two runs of blocks are the first run's records followed by the second's |
| EventExtractor.RecordsOrigin | TimelineBuilder.py:104-129 | every record is the record of one of the blocks |
| EventExtractor.ExtractJoin | TimelineBuilder.py:99-131 | a reply whose stripped form is standalone blocks joined by blank-line runs of any length (so blank lines before and after are allowed), each block with its three fields and a date that parses, gives exactly one record per block, in block order, as computed by `Extract` |
| EventExtractor.ExtractEvents | TimelineBuilder.py:99-131 | the loop returns exactly `Extract(response)`: the records (`Records`, built on `FilterMap.Kept`) of the blocks of the stripped reply, in order |
| EventExtractor.ReadBlock | TimelineBuilder.py:109-126 | filling the per-block dictionary gives the block's fields: each key is set only on a match, and `Date` only when the value parses |
| FilterMap.KeptAppend | TimelineBuilder.py:104-129 | the values kept from two runs of items are those of the first followed by those of the second |
| FilterMap.Kept | TimelineBuilder.py:104-129 | the values a loop appends while walking the items in order: never more values than items |
| FilterMap.KeptAllSome | TimelineBuilder.py:104-129 | when every item has a value, exactly one value per item is kept, in item order |
| FilterMap.KeptOrigin | TimelineBuilder.py:104-129 | every value kept comes from one of the items |
| FilterMap.KeptAll | TimelineBuilder.py:104-129 | when every value computed satisfies a property, every value kept does |
| FilterMap.KeptAtMost | TimelineBuilder.py:104-129 | only items passing a test contribute, so at most that many values are kept |
| TimelinePlot.Truncate | TimelineBuilder.py:140-144 | a text that fits is returned unchanged; a longer one becomes its first `max_length` characters followed by `...`; for a negative `max_length`, the slice `text[:max_length]` (`SlicePrefix`, a prefix of the text of Python's clipped length) keeps all but the last `-max_length` characters |
| TimelinePlot.TruncateKeepsPrefix | TimelineBuilder.py:140-144 | a label keeps the first `min(len, max_length)` characters and is at most three longer than `max_length` |
| TimelinePlot.TruncateIdempotent | TimelineBuilder.py:140-144 | truncating a label again leaves it unchanged |
| TimelinePlot.Lanes | TimelineBuilder.py:165 | there is one lane per event, each lane is 0 or 1, the first is 0, and adjacent lanes differ |
| TimelinePlot.LanesUnique | TimelineBuilder.py:165 | the lanes are the only 0/1 list that starts at 0 and alternates |
| TimelinePlot.PlotPoints | TimelineBuilder.py:151-175 | an empty event list draws nothing; otherwise one marker per event, in order, at its date and alternating lane, labelled with the truncated task, with the full task on hover |

## Left out

- Fetching the reply is not modelled: the HTTP request and its JSON payload, the
  30-second timeout, and the handling of status codes and `requests` exceptions are I/O
  (TimelineBuilder.py:65-98, 133-138). `EventExtractor.ExtractEvents` takes the reply text
  as input.
- dateutil's fuzzy parser is an external library. It is the parameter
  `DateEnv.fuzzyParse`, and `None` stands for an exception.
- `pd.Timestamp` is represented by the parameter `DateEnv.representable`. `false` stands
  for a date that raises an exception.
- `datetime.now().year` is the parameter `DateEnv.currentYear`.
- Dates are abstract values with a year, month and day (`DateInterpreter.DateTime`). The
  time of day and the time zone that `parser.parse` may return and `pd.Timestamp` keeps
  are not modelled. They decide where a marker sits on the date axis, but no property
  stated here depends on them.
- Plotly figure construction, its layout and `fig.show()`, the pandas DataFrame, the CSV
  export, and the exception catch around the plot are rendering and file I/O. Only the
  marker data is modelled (`TimelinePlot.PlotPoints`).
- The `print` diagnostics, `load_dotenv`, the API constants, and the `__main__` prompt,
  messages and exit codes (TimelineBuilder.py:208-230) are not modelled.
- The regex classes `\w` and `\d` are modelled on ASCII only. Python's `str` patterns also
  accept other Unicode letters and digits.
- `re.IGNORECASE` is modelled as ASCII lower-casing. The labels contain no letter whose
  case class includes a non-ASCII character.
