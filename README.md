# Bulk COA generator — a Dafny model

The Bulk COA Generator reads a spreadsheet of production batches. For each row it
fills a Word template (`COA <code>.docx`) with the row's figures and writes a
certificate of analysis (COA), `generated_coas/COA-<batch>-<code>.docx`. Everything
sits in `app.py`. This project models the parts of it that compute:

- **Placeholder substitution** (`Substitution`). A paragraph is a sequence of
  formatted runs. For each `{{KEY}}` the paragraph's original text contains, the
  code finds the shortest prefix of runs whose concatenated text holds the
  placeholder. It then:
  - replaces every occurrence inside that prefix;
  - writes the result into the first run;
  - gives the first run the font of the first run in the prefix that holds the
    whole placeholder by itself, or else its own font;
  - blanks the other runs of the prefix.

  The code then stops (app.py:41), so an occurrence of the same placeholder in
  a later run is left as it is (`LaterOccurrenceKept`).

  The paragraph is an `array<Run>` that `ApplyKey` and `ReplaceInParagraph`
  update in place. They are proved against the functions `KeyApplied` and
  `ParagraphFilled`. Python's `in` and `str.replace` are the `Text` functions
  `Contains` and `ReplaceAll`, both left-to-right scans. `ReplaceAll` is proved
  equal to splitting on the pattern and joining with the value.
- **The document walk** (`Template`). The code visits the body paragraphs, then
  every table, row, cell and cell paragraph, in that order. A merged cell is
  reached once per grid cell it covers, so the same paragraph object can be
  visited more than once. `FillDocument` proves that each paragraph ends up
  filled as many times as the walk reaches it.
- **Best before** (`BestBefore`). The code parses `"<Month name> <year>"` from the
  stripped date cell, adds two years less one month, and prints
  `"<MONTH NAME> <year>"`. Anything that does not parse gives `"N/A"`.
- **File names** (`FileNames`). These are the template name, the sanitised batch
  number, and the certificate's name and path.
- **The row loop** (`Batch`). This covers the 13-field data map of each row and
  which rows produce a certificate. Rows whose template file is missing are
  skipped and reported by their 1-based row number. `GenerateAll` returns the
  certificate paths, and the job (row plus drawn figures) behind each one.
  `Data(job)` is the map the template is filled with.

Template existence is a predicate parameter (`templateExists`). The random
composition figures are a parameter (`drawn`), indexed by row.

## Model

| member | source | states |
|---|---|---|
| Substitution.Joined | app.py:17 | the paragraph's text: the runs' texts concatenated in order; `JoinedAppend`, `JoinedPrefix` and `JoinedBlanked` give its meaning |
| Substitution.Placeholder | app.py:19 | the placeholder is `{{` key `}}`: four characters longer than the key, with braces at both ends and `{key}` inside |
| Substitution.FirstContaining | app.py:27 | the first run of the group whose own text holds the placeholder; no earlier run does; None only when no run of the group does |
| Substitution.Blanked | app.py:30-31 | every run keeps its font and its text becomes empty |
| Substitution.FirstCover | app.py:23-26 | the index of the run at which the accumulation loop first holds the placeholder, always a valid index; `FirstCoverIsLeast` and `FirstCoverNone` give its meaning |
| Substitution.AnchorFont | app.py:27-28 | the font is the first run's, or that of a run whose own text holds the placeholder; with no such run it is the first run's |
| Substitution.Merged | app.py:29-40 | the group's first run, with the group's text after replacement and the anchor font; `KeyAppliedEffect` states the result |
| Substitution.KeyApplied | app.py:18-41 | one pass of the key loop keeps the number of runs; `KeyAppliedEffect`, `KeyAppliedText` and `KeyAbsentUnchanged` give its effect |
| Substitution.KeysApplied | app.py:18-41 | the keys applied in mapping order, each gated on the original text, keep the number of runs |
| Substitution.ParagraphFilled | app.py:15-41 | what `replace_in_paragraph` leaves: all keys applied, gated on the paragraph's text before the first key |
| Substitution.ApplyKey | app.py:20-41 | updates the paragraph's runs in place so that they become `KeyApplied` of the old runs |
| Substitution.MergeGroup | app.py:28-40 | the first run takes the replaced text of the group and the anchor font; runs 1..k are blanked; later runs are untouched |
| Substitution.ReplaceInParagraph | app.py:15-41 | after all keys, the runs are `ParagraphFilled` of the old runs (every key tested against the original full text) |
| Substitution.JoinedPrefix | app.py:23-24 | the accumulated text of a prefix of runs is a prefix of the full text |
| Substitution.JoinedAppend | app.py:17 | the joined text of two run sequences is the concatenation of their joined texts |
| Substitution.JoinedBlanked | app.py:30-31 | blanked runs contribute no text |
| Substitution.FirstCoverPrefix | app.py:23-26 | a prefix that already holds the placeholder fixes the stopping run, whatever follows |
| Substitution.FirstCoverNone | app.py:20-26 | no stopping run exists exactly when the paragraph's text lacks the placeholder |
| Substitution.FirstCoverIsLeast | app.py:23-26 | the loop stops at run k exactly when the first k+1 runs hold the placeholder and no shorter prefix does |
| Substitution.AnchorIsLastOrFirst | app.py:27 | the style comes from the stopping run when it holds the whole placeholder, and from the first run otherwise |
| Substitution.CoverFound | app.py:23-26 | the first run whose prefix holds the placeholder is the stopping run, and the result has the merged shape |
| Substitution.AnchorOfGroup | app.py:27 | when no run but the last can hold the placeholder, the style run is the last one if it holds it and the first one otherwise |
| Substitution.KeyAbsentUnchanged | app.py:20 | a key absent from the original text, or from the current runs, leaves the paragraph unchanged |
| Substitution.KeyAppliedEffect | app.py:23-41 | the full effect: the length is kept; the first run holds the prefix's text with the placeholder replaced and the anchor font; runs 1..k are empty with their fonts kept; the rest are unchanged |
| Substitution.KeyAppliedText | app.py:29-34 | the paragraph's new text is the replaced prefix text followed by the untouched remaining text |
| Substitution.MergedRunFreeOfPlaceholder | app.py:29 | when the value has no brace and does not occur in the key, no placeholder is left in the merged run |
| Substitution.InnerFree | app.py:19 | a value without braces that does not occur in the key does not occur in `{key}` |
| Substitution.KeysAppliedConcat | app.py:18 | applying a list of keys is applying its first part, then its second part |
| Substitution.ParagraphWithoutPlaceholders | app.py:20 | a paragraph holding none of the placeholders is left unchanged |
| Substitution.SingleField | app.py:17-20 | with one field, the key is tested against the paragraph's own joined text |
| Substitution.SplitTokenScenario | app.py:23-40 | a placeholder split over three runs `{{`, key, `}}` becomes the value in the first run with its own font; the other two runs are emptied |
| Substitution.FirstRunHoldsPlaceholder | app.py:23-41 | when the first run holds the placeholder, only its text changes |
| Substitution.LaterOccurrenceKept | app.py:23-41 | with the placeholder in two runs, only the first is replaced (in its own font) and the second run keeps the placeholder, because the loop stops at the first covering run |
| Substitution.SecondRunHoldsPlaceholder | app.py:23-40 | when only the second run holds it, both texts merge into the first run, which takes the second run's font |
| Substitution.LaterKeyTestedAgainstOriginal | app.py:17-20 | a key absent from the original text does nothing, even if earlier values would have introduced it |
| Text.Contains | app.py:20 | Python's `p in s` as a left-to-right scan; `ContainsIff` gives its meaning |
| Text.ReplaceAll | app.py:29 | Python's `s.replace(p, v)` as a left-to-right scan replacing leftmost non-overlapping occurrences; `ReplaceAllIsSplitJoin` and the lemmas below give its meaning |
| Text.ContainsIff | app.py:20 | `p in s` holds exactly when `p` occurs at some index of `s` |
| Text.ContainsAppendRight | app.py:24-26 | text that holds the placeholder still holds it after more text is appended |
| Text.ContainsAppendLeft | app.py:24-26 | a placeholder in the later text is still found after text is put in front |
| Text.ContainsPrefix | app.py:24-26 | a placeholder in a prefix is in the whole text |
| Text.Split | app.py:29 | splitting yields at least one part, and the first part is a prefix of the text |
| Text.ReplaceAllAbsent | app.py:29 | replacing a pattern that does not occur changes nothing |
| Text.ReplaceAllSelf | app.py:29 | replacing a pattern by itself changes nothing |
| Text.SplitJoinRoundTrip | app.py:29 | joining the split parts with the pattern gives back the text |
| Text.ReplaceAllIsSplitJoin | app.py:29 | replacing equals splitting on the pattern and joining with the value |
| Text.SplitPartsFree | app.py:29 | no split part contains the pattern |
| Text.NoStraddle | app.py:29 | an occurrence cannot straddle an inserted value whose characters clash with the pattern's ends |
| Text.JoinFree | app.py:29 | parts free of the pattern, joined by such a value, stay free of it |
| Text.ReplaceAllLeavesNoOccurrence | app.py:29 | with such a value, no occurrence of the pattern is left after replacing |
| Text.ReplaceCharAt | app.py:131 | replacing one character by another is a pointwise map that keeps the length |
| Template.CellParagraphs | app.py:47-48 | the paragraphs of a run of cells, cell by cell |
| Template.RowParagraphs | app.py:46-48 | the paragraphs of a run of rows, row by row and cell by cell |
| Template.TableParagraphs | app.py:45-48 | the paragraphs of a run of tables, table by table |
| Template.WalkOrder | app.py:43-49 | the paragraphs in visit order: the body paragraphs first, then each table's rows, cells and cell paragraphs |
| Template.Frame | app.py:43-49 | every paragraph the walk reaches is in the set the fill may change |
| Template.Snapshot | app.py:43-49 | the snapshot holds each reached paragraph's runs, in walk order |
| Template.FillDocument | app.py:43-49 | after the walk, each reached paragraph holds its original runs filled once per time the walk reaches it |
| Template.FillTable | app.py:45-49 | filling one table adds exactly its rows' paragraphs to the visits, with multiplicity, and fills each once per visit |
| Template.FillRow | app.py:46-49 | filling one row adds exactly its cells' paragraphs to the visits, with multiplicity, and fills each once per visit |
| Template.FillParagraphs | app.py:43-44 | filling a list of paragraphs counts one more visit for each and fills it |
| Template.Visit | app.py:44 | one visit fills the paragraph once more |
| Template.BodyInWalk | app.py:43 | the body paragraphs are part of the walk |
| Template.TableStep | app.py:45 | the walk through tables 0..t is the walk through 0..t-1 followed by table t's paragraphs |
| Template.ReachedOnceFilledOnce | app.py:43-49 | a paragraph reached exactly once ends up `ParagraphFilled` of its original runs |
| Template.RefillIsStable | app.py:43-49 | when one fill leaves no placeholder, a paragraph reached several times ends up as if filled once |
| Template.MergedCellReachedTwice | app.py:46-48 | a cell merged across two grid cells puts the same paragraph twice in the walk |
| BestBefore.IsSpace | app.py:103 | the whitespace characters of Python's `str.isspace`, which `strip()` removes and `%B %Y` skips between month and year |
| BestBefore.Strip | app.py:103 | `date.strip()`: leading and trailing whitespace removed; `SurroundingSpaceIgnored` gives its meaning |
| BestBefore.StripLeading | app.py:103 | removes exactly the leading whitespace |
| BestBefore.StripTrailing | app.py:103 | removes exactly the trailing whitespace |
| BestBefore.Upper | app.py:109 | upper-cases each character and keeps the length |
| BestBefore.MonthPrefix | app.py:103 | finds the month whose full name starts the text, case-insensitively, or says none does |
| BestBefore.DigitValue | app.py:103 | an ASCII digit's value, which prints back as that digit |
| BestBefore.YearValue | app.py:103 | four digits read as a year of at most 9999 |
| BestBefore.FourDigits | app.py:103 | a year below 10000 printed as exactly four digits |
| BestBefore.DecimalValue | app.py:109 | reads a string of decimal digits back as a number, most significant digit first |
| BestBefore.DecimalString | app.py:109 | `str(year)` is a non-empty string of digits that reads back as the year, with no leading zero unless it is a single digit |
| BestBefore.ParseMonthYear | app.py:103 | a parsed date has a month in 1..12 and a year in 1..9999 |
| BestBefore.BestBeforeText | app.py:104-109 | the month 23 months on, named from `calendar.month_name` (the constant `MonthNames`) in upper case, a space, and the year; `TextIsNotNA` and `BestBeforeParsesBack` give its meaning |
| BestBefore.BestBeforeOf | app.py:102-111 | the field is `N/A` exactly when the stripped date does not parse; otherwise it is the best-before text of the parsed month and year |
| BestBefore.BestBeforeMonth | app.py:104-108 | the month is in 1..12 and lies 23 months after the given one |
| BestBefore.MonthNamesDistinct | app.py:109 | the twelve month names differ in their first three letters |
| BestBefore.MonthUnique | app.py:103 | at most one month name can start the date |
| BestBefore.YearRoundTrip | app.py:103 | printing a year as four digits and reading it back gives the year |
| BestBefore.YearDigitsRoundTrip | app.py:103 | reading four digits and printing them back gives the digits |
| BestBefore.DecimalFourDigits | app.py:109 | years 1000..9999 print as the same four digits the parser reads |
| BestBefore.ParseAccepts | app.py:103 | a month name in any case, then whitespace, then four digits parses to that month and year |
| BestBefore.ParseOnlyAccepts | app.py:103 | anything that parses is a month name, then whitespace, then exactly four digits |
| BestBefore.TextIsNotNA | app.py:109 | a computed best-before date is never `N/A` |
| BestBefore.SurroundingSpaceIgnored | app.py:103 | whitespace around the date does not matter |
| BestBefore.StripLeadingSpaces | app.py:103 | stripping removes exactly a leading run of whitespace |
| BestBefore.StripTrailingSpaces | app.py:103 | stripping removes exactly a trailing run of whitespace |
| BestBefore.BestBeforeParsesBack | app.py:103-109 | a printed best-before date with a four-digit year parses back to the month and year it names |
| BestBefore.JanuaryWraps | app.py:105-108 | January gives December of the next year |
| BestBefore.MarchScenario | app.py:102-109 | `" march  2024 "` gives `FEBRUARY 2026` |
| BestBefore.MarchParses | app.py:103 | `"march  2024"` parses as March 2024 |
| BestBefore.FebruaryPrinted | app.py:104-109 | March 2024 gives `FEBRUARY 2026` |
| BestBefore.DigitFirstNotAvailable | app.py:102-111 | a date starting with a digit, such as `2024-03`, gives `N/A` |
| FileNames.SafeBatch | app.py:131 | the batch number with `/`, `\` and space each replaced by `_`; `SafeBatchPointwise` gives its meaning |
| FileNames.OutputFileName | app.py:132 | `COA-`, the sanitised batch number, `-`, the code and `.docx` |
| FileNames.OutputPath | app.py:134 | the certificate's name inside `generated_coas` |
| FileNames.TemplateFileName | app.py:133 | `COA `, the code and `.docx` |
| BestBefore.NonAsciiInitialNotAvailable | app.py:102-111 | a date whose stripped text starts with a character beyond ASCII `z` (such as `ſ`) gives `N/A` |
| BestBefore.DottedCapitalINotFolded | app.py:103 | `aprİl 2024` does not parse: `İ` is not folded to `i` |
| FileNames.SafeBatchPointwise | app.py:131 | each `/`, `\` and space of the batch number becomes `_`; every other character stays; the length is kept |
| FileNames.SafeBatchHasNoSeparator | app.py:131 | the sanitised batch number holds no `/`, `\` or space |
| FileNames.SafeBatchKeepsPlainBatch | app.py:131 | a batch number without those characters is used unchanged |
| FileNames.SafeBatchIdempotent | app.py:131 | sanitising twice equals sanitising once |
| FileNames.SeparatorsCollide | app.py:131-132 | batch numbers `A/1` and `A 1` name the same certificate |
| FileNames.SlashOnlyFromCode | app.py:131-132 | the certificate's name holds a `/` exactly when the product code does |
| FileNames.OutputIsNotTemplate | app.py:132-133 | a row's certificate never has its template's name |
| Batch.FieldMap | app.py:115-129 | the data map has the 13 keys, in the order app.py:115-129 inserts them |
| Batch.Lookup | app.py:115-129 | a key is found exactly when some entry carries it |
| Batch.Data | app.py:115-129 | the map has the 13 keys, and `BEST_BEFORE`, `DATE` and `BATCH_NO` look up the row's best-before text, date and batch number |
| Batch.Served | app.py:136-138 | the indices of the rows whose template exists, no more than there are rows; `ServedExactly` and `ServedAscending` give its meaning |
| Batch.Skipped | app.py:139-140 | the 1-based numbers of the rows whose template is missing, no more than there are rows; `SkippedExactly` and `SkippedAscending` give its meaning |
| Batch.HasTemplate | app.py:136 | `os.path.exists(template)` for the row's template name, read through the `templateExists` parameter |
| Batch.TemplateName | app.py:133 | the `template` argument of the `generate_docx` call: the row's template file name |
| Batch.Output | app.py:134 | the `output_path` argument of the `generate_docx` call: the row's certificate path |
| Batch.GenerateAll | app.py:91-140 | one job per row whose template exists, in row order, with the row's own figures; each certificate path is the job's output path; the skipped row numbers are exactly `Skipped` |
| Batch.NextRow | app.py:136-140 | each further row adds its index to the served rows, or its 1-based number to the skipped ones |
| Batch.RowsAccounted | app.py:136-140 | every row is either served or skipped |
| Batch.ServedAscending | app.py:91 | served rows are valid indices, in strictly increasing order |
| Batch.ServedExactly | app.py:136-138 | a row is served exactly when its template exists |
| Batch.SkippedAscending | app.py:140 | skipped row numbers lie in 1..number of rows, strictly increasing |
| Batch.SkippedExactly | app.py:139-140 | a number is reported skipped exactly when that row's template is missing |
| Batch.KeysDistinct | app.py:115-129 | the 13 keys are pairwise distinct |
| Batch.LookupFindsEntry | app.py:115-129 | a key's first entry gives its value |
| Batch.FieldMapLookup | app.py:115-129 | each key of the data map looks up its own entry |
| Batch.BestBeforeField | app.py:118 | `BEST_BEFORE` maps to the computed best-before text |
| Batch.SecondTemplateMissing | app.py:136-140 | with three rows where only the second lacks its template, rows 0 and 2 are served and row number 2 is reported |

## Left out

- `calculate_components` (app.py:64-75) draws random floats and rounds them. The
  model takes its five printed results as the parameter `drawn`, one per row.
- The moisture cell is parsed with `float` and printed back (app.py:95, 119). The
  model carries the printed text. A non-numeric moisture raises and ends the whole
  run; the model does not capture that.
- The Streamlit page, the spreadsheet reader, the downloads, the ZIP archive and
  the HTML preview (app.py:57-61, 77-90, 142-end) are I/O and are not modelled.
- `generate_docx` (app.py:52-55) loads and saves a Word file. The model fills a
  `Document` value of paragraphs, tables, rows and cells that is already in memory.
  A failing call is not modelled: loading a template that is not a Word file, or
  saving when the output directory does not exist (a `/` in the product code,
  see `SlashOnlyFromCode`), raises, nothing catches it, and the run stops at that
  row, while `GenerateAll` treats every call as successful.
- Setting a run's text in the Word library turns tabs and newlines into elements
  of their own. The model treats run text as a plain string.
- A run is modelled by its text and six font fields. Setting a run's text
  (app.py:31, 34) removes every other child of the run, so an inline picture, a
  field or a footnote reference in runs 0..k of the merged group is deleted. The
  group always starts at run 0, so such content placed before a placeholder is
  lost. The model does not show that.
- Font colour is modelled as an optional RGB value. Theme colours are not
  modelled, and underline styles are folded into an optional flag.
- Date parsing uses the English month names. Whitespace is Python's full
  `str.isspace` set. Only ASCII letters are case-folded. This matches the
  program: the regex behind `strptime` also lets `ſ`, `ı` and `İ` match `s` or
  `i`, but `strptime` then fails to find the lowered name among the month names,
  so such a date gives `N/A` in both (`NonAsciiInitialNotAvailable`,
  `DottedCapitalINotFolded`). Non-ASCII digits and locale-dependent month names
  are not modelled.
- `BestBefore.BestBeforeParsesBack`: it is stated only for results whose year has
  four digits, because the parser accepts exactly four.
- `os.path.join` is modelled as the directory, `/` and the name. That is how a
  POSIX system joins them, since the file name never starts with `/`.
- The row number in the warning is the loop index plus one (app.py:140). The
  model assumes the sheet has the default 0-based row index.
- Template existence is a fixed predicate for the whole run. A file that
  appears or disappears during the run, or an earlier certificate overwritten
  by a later one, is not modelled.
- On app.py:131 the literal `"\", "` swallows its closing quote, so the line ends
  inside an unterminated string. The whole of app.py is then a syntax error, and
  nothing in it runs as written. The model takes the evident intent, replacing
  backslashes by `_`. No as-written member is possible for that reason.
