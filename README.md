# College dashboard: data pipeline and questionnaire loaders

A Dafny model of the two data-producing parts of the college dashboard.

**The IPEDS 2023 pipeline** (`data/pipeline/build_dataset.py`) builds two files.

`institutions.csv`:

- The directory file is narrowed to the 4-year sectors 1, 2 and 3.
- Four auxiliary files are left-merged onto it on `UNITID`: admissions, graduation rates, enrollment and demographics, and Pell grants. For each file, the key and the value columns are projected, the value columns are renamed and coerced to numbers with `pd.to_numeric(errors="coerce")`, and the result is left-merged.
- A sector label and a locale group are added.
- Rows whose admission or graduation rate is exactly zero are dropped and counted.
- The frame is projected to the wanted output columns that it has.

`programs.csv`:

- Bachelor's completions rows are kept, except those whose code is the catch-all `"99"`.
- The award counts are coerced, and rows without a count are dropped.
- The counts are summed per (UNITID, two-character CIP family).
- Each family is labelled from the family table, with `"Other"` for unknown codes.

Data frames are modelled in `Frames`:

- A frame is a list of column names and a sequence of rows.
- A row maps column names to cells: missing, a number, or a text token.
- The pandas operations the pipeline uses are defined once: coercion, column assignment, mask filtering, projection with renaming, and the left merge with pandas' fan-out on repeated keys.

**The two questionnaire loaders** (`src/data/academic-questions.json.js`, `src/data/vibe-questions.json.js`) read a markdown text.

- The text is split on its `<!-- … -->` comments.
- They walk the interleaved header/body pairs.
- `intro` and `outro` bodies set the intro and outro.
- Each header starting with `question` appends one question. A question has:
  - an id, with the default `q<ordinal>`;
  - a type, with the default `radio`;
  - options: the `- ` lines with their dash removed;
  - a placeholder: the first `placeholder:` line of a textarea;
  - text: the remaining non-blank lines.
- For the academic questionnaire, a question also has `depends-on`, `depends-values` and `max-select` attributes.

Both loaders are methods with the source's loop; they are proved equal to a function of the list of pairs. The JavaScript string operations they use (`trim`, `split`, `startsWith`, `join`) and the regular expressions are modelled by hand in `JsStrings` and `Patterns`.

Only a CIPCODE equal to `"99"` is excluded by `build_programs`. The comparison is on the whole code, so a code such as `"9901"` is kept and counted in family `"99"`, labelled `"Other"` (`Programs.NinetyNineOnlyWhole`).

## Model

| member | source | states |
|---|---|---|
| Institutions.LoadInstitutions | data/pipeline/build_dataset.py:35-40 | the loaded frame has the directory's columns; its rows are exactly the directory rows whose SECTOR is 1, 2 or 3 |
| Institutions.LoadKeepsOrder | data/pipeline/build_dataset.py:39 | the loaded rows are the 4-year rows of the directory, untouched and in their original order |
| Frames.Coerce | data/pipeline/build_dataset.py:48 | `to_numeric(errors="coerce")` on one cell: always a number or missing; numbers stay; missing stays missing; text becomes a number exactly when it parses as a decimal, and then that number is the token's value |
| Frames.CoerceIdempotent | data/pipeline/build_dataset.py:76 | coercing an already coerced cell changes nothing |
| Frames.CoerceIntegerText | data/pipeline/build_dataset.py:48 | a token written as an integer coerces to that integer |
| Frames.CoerceFractionText | data/pipeline/build_dataset.py:48 | a token `ip.fp` of digit runs (not both empty) coerces to ip plus fp over ten to the length of fp |
| Frames.CoerceRateText | data/pipeline/build_dataset.py:48 | the rate token "0.85" coerces to the number 0.85 |
| Frames.ParseIntegerText | data/pipeline/build_dataset.py:48 | every integer rendered in decimal parses back to itself |
| Institutions.CoerceColumns | data/pipeline/build_dataset.py:75-76 | the loop over the value columns leaves every listed column coerced and every other cell unchanged |
| Institutions.CoerceStep | data/pipeline/build_dataset.py:75-76 | one more pass of the loop coerces one more column of the already coerced frame |
| Frames.SelectRenamed | data/pipeline/build_dataset.py:47 | `aux[[key, src…]].rename(…)`: the frame has exactly the key and the target columns, one row per row, each keeping its key cell and each source cell under its target name |
| Frames.RenamedCells | data/pipeline/build_dataset.py:73-74 | the renamed value cells of a row: exactly the target names, each holding its source column's cell |
| Frames.AssignColumn | data/pipeline/build_dataset.py:93 | `df[name] = f(row)`: the column is added once at the end; every row's `name` cell is f of that row; every other cell is unchanged |
| Frames.FilterRows | data/pipeline/build_dataset.py:151 | a boolean-mask selection keeps exactly the rows passing the test, with all columns |
| Frames.ProjectPresent | data/pipeline/build_dataset.py:164 | the projection lists the wanted columns the frame has, in wanted order; each row keeps exactly those cells |
| Frames.Matches | data/pipeline/build_dataset.py:49 | the matches of a key cell are exactly the right rows holding it |
| Frames.Extend | data/pipeline/build_dataset.py:49 | a merged row takes the added columns from its match, or missing when there is none, and every other cell from the base row |
| Frames.LeftMerge | data/pipeline/build_dataset.py:49 | `merge(how="left")`: base columns then the right frame's non-key columns; never fewer rows than the base |
| Frames.UniqueMatch | data/pipeline/build_dataset.py:49 | with unique right keys, a key cell has no match or exactly the one row holding it |
| Frames.NoMatchEmpty | data/pipeline/build_dataset.py:49 | a key cell that no right row holds has no match |
| Frames.MergeRowUnique | data/pipeline/build_dataset.py:49 | with unique right keys, a base row yields one row: extended from its match, or padded with missing cells |
| Frames.MergeRowsUnique | data/pipeline/build_dataset.py:49 | with unique right keys the merge yields exactly one row per base row, in base order |
| Frames.LeftMergeUnique | data/pipeline/build_dataset.py:49 | with unique right keys, output row i is base row i with the matched values, or with missing values when no key matches |
| Frames.MergeRowProvenance | data/pipeline/build_dataset.py:49 | whatever the keys, each cell of a merged row comes from its base row or, in an added column, from a right row or is missing |
| Frames.MergeRowsProvenance | data/pipeline/build_dataset.py:49 | whatever the keys, every cell of the merge is a base value in base columns and a right value or missing in added columns |
| Institutions.Join | data/pipeline/build_dataset.py:43-49 | one join stage. Whatever the keys: the columns are the base's plus the targets, no row is lost, base cells come from the base, and joined cells are numeric or missing. With unique UNITIDs: rows map one to one, each extended with its match's coerced values or missing |
| Institutions.JoinedTable | data/pipeline/build_dataset.py:49 | the merged frame never has fewer rows than the base; its cells are drawn from the base or are numeric in the targets |
| Institutions.JoinedUnique | data/pipeline/build_dataset.py:49 | against unique keys, the merged rows are the base rows extended with the coerced values of their match, or missing |
| Institutions.PreparedCells | data/pipeline/build_dataset.py:47-48 | the prepared auxiliary frame keeps each row's key and holds each renamed value coerced |
| Institutions.StageNames | data/pipeline/build_dataset.py:65-72 | the output names of the four stages are the joined columns in order, distinct, and none is the key |
| Institutions.JoinAll | data/pipeline/build_dataset.py:133-143 | the four join stages in order. Whatever the keys: the columns gain the fifteen joined names, the other cells are drawn from the loaded frame, joined cells are numeric or missing, and no row is lost. With one row per UNITID in every auxiliary file: row i is loaded row i, unchanged outside the joined names, holding in each stage's names the coerced values of the auxiliary row with its UNITID, or missing values when there is none |
| Institutions.JoinChain | data/pipeline/build_dataset.py:133-143 | the same four stages over any fifteen distinct output names cut one, one, twelve and one as the stages' rename maps are |
| Institutions.ChainRows | data/pipeline/build_dataset.py:133-143 | the per-row facts of four successive stages compose: the last frame's row i is the first frame's row i outside the names, with each stage's values for its key |
| Institutions.ChainRow | data/pipeline/build_dataset.py:133-143 | one row through the four stages: each stage touches only its own slice of names, so the earlier stages' values and the key survive the later ones |
| Institutions.StageTransfer | data/pipeline/build_dataset.py:133-143 | a stage's values survive a later stage that keeps the target cells and the key |
| Institutions.JoinedRowDetermined | data/pipeline/build_dataset.py:133-143 | the description of a joined row fixes every cell: two rows joined from the same loaded row are equal cell by cell |
| Institutions.JoinStage | data/pipeline/build_dataset.py:133-143 | one stage of the chain: the columns gain its slice of names; provenance and numeric facts carry on to the names joined so far; no row is lost. With unique keys in its auxiliary file: row i is base row i outside the slice, holding the coerced values of its match, or missing values |
| Institutions.SectorLabelCases | data/pipeline/build_dataset.py:92-93 | `map(sector_map)`: codes 1, 2 and 3 each get their own label, and every other code maps to missing |
| Institutions.Trunc | data/pipeline/build_dataset.py:98 | `int()` on a float truncates toward zero |
| Institutions.TensGroup | data/pipeline/build_dataset.py:99-100 | floor division by ten, then `.get(tens, "Unknown")`: always one of the five groups |
| Institutions.LocaleGroup | data/pipeline/build_dataset.py:95-100 | missing codes are Unknown; other codes are grouped by their tens digit, always one of the five groups |
| Institutions.LocaleGroupOfNumber | data/pipeline/build_dataset.py:95-100 | numeric codes: City, Suburb, Town and Rural are exactly the decades 10, 20, 30 and 40; everything else is Unknown |
| Institutions.LocaleGroupOfText | data/pipeline/build_dataset.py:98 | an integer token is grouped like the integer it writes |
| Institutions.AddLabels | data/pipeline/build_dataset.py:89-103 | the frame gains `sector_label` and `locale_group`, computed from each row's SECTOR and LOCALE; every other cell is unchanged |
| Institutions.EnrichedReadable | data/pipeline/build_dataset.py:98 | after the joins, every LOCALE cell comes from a 4-year directory row, so `int()` can read it |
| Institutions.PostFilter | data/pipeline/build_dataset.py:151 | the post-filter keeps the columns, and no kept row has a rate exactly zero |
| Institutions.PostFilterSpec | data/pipeline/build_dataset.py:149-152 | the post-filter keeps every row without a zero rate, missing rates included, in order; the dropped count is the number of zero-rate artifacts |
| Institutions.OutputColumns | data/pipeline/build_dataset.py:154-164 | the output columns are the wanted names the directory file has or the pipeline derives |
| Institutions.ProjectedRows | data/pipeline/build_dataset.py:164 | projection keeps the sector, label, locale group, non-zero rate, numeric and provenance guarantees of every row |
| Institutions.Publish | data/pipeline/build_dataset.py:145-164 | labels, post-filter and projection: the output columns are the wanted names present; dropped plus kept is the joined row count; output row m is the labelled joined row at the m-th position the post-filter keeps, projected to the output columns; every row carries the output guarantees |
| Institutions.LabelledRows | data/pipeline/build_dataset.py:89-103 | every labelled row of the joined frame is in sector 1, 2 or 3, has a sector label and a locale group, numeric or missing joined values, and other cells from the loaded frame |
| Institutions.LabelsKeepRates | data/pipeline/build_dataset.py:149-151 | labelling leaves both rates, so the post-filter tests each row the same before and after labelling |
| Institutions.KeptProjection | data/pipeline/build_dataset.py:150-164 | as many output rows as the post-filter keeps; output row m holds the m-th kept row's cell on every output column and is missing elsewhere |
| Institutions.PublishedRows | data/pipeline/build_dataset.py:145-164 | output row m is the labelled joined row at the m-th position the post-filter keeps, and there are exactly as many output rows as kept positions |
| Institutions.BuildInstitutions | data/pipeline/build_dataset.py:124-166 | `main`, institutions half. The output columns are the wanted names present. Every row is in sector 1, 2 or 3, with a sector label and a locale group; no rate is zero; joined cells are numeric or missing; every other cell comes from the loaded directory. The joined frame never has fewer rows than the loaded one and the dropped count is what the post-filter removes from it; the output is the labelled joined rows the post-filter keeps, in order, projected. With unique UNITIDs, joined row i is loaded row i with the four stages' values |
| Programs.Prefix2 | data/pipeline/build_dataset.py:114 | `str[:2]`: the first two characters, or the whole code when shorter |
| Programs.FamilyOf | data/pipeline/build_dataset.py:114 | a text code gives `Text` of its first two characters (`Prefix2`), so at most two characters; any other cell gives missing |
| Programs.Contributed | data/pipeline/build_dataset.py:110-116 | a raw row counts exactly when it is a bachelor's row, its code is not "99", its count is numeric and both group keys are present; it then adds its count to its (UNITID, family) group |
| Programs.CoercedCounts | data/pipeline/build_dataset.py:112 | coercing the counts changes no row's contribution |
| Programs.Families | data/pipeline/build_dataset.py:110-114 | after the filters, what groupby reads from each row is what the raw row contributes |
| Programs.AddToKeys | data/pipeline/build_dataset.py:115-117 | adding one count to the groups adds its key to the group keys |
| Programs.AddToTotals | data/pipeline/build_dataset.py:115-117 | adding one count raises exactly its group's total, and the grand total, by that count |
| Programs.GroupSumSpec | data/pipeline/build_dataset.py:115-117 | `groupby(...).sum()`: one group per key with distinct keys; the group keys are exactly the contributed keys; each total is the sum of its key's counts; nothing is lost overall |
| Programs.SumForNonNegative | data/pipeline/build_dataset.py:116-117 | with no negative count no key's sum is negative |
| Programs.CipLabel | data/pipeline/build_dataset.py:120 | `map(CIP_FAMILIES).fillna("Other")`: the table's name for a known family, "Other" otherwise |
| Programs.AggregateSpec | data/pipeline/build_dataset.py:115-120 | the program rows have distinct (UNITID, family) keys, exactly the contributed ones; each total is its group's sum, each label its family's name; the grand total is kept |
| Programs.ProgramsOfRows | data/pipeline/build_dataset.py:106-121 | the program keys are exactly the (UNITID, family) pairs the completions rows contribute, and every family code has at most two characters |
| Programs.AggregateNonNegative | data/pipeline/build_dataset.py:115-117 | with non-negative counts no program total is negative |
| Programs.BuildPrograms | data/pipeline/build_dataset.py:106-121 | `build_programs`: the program rows are the labelled group sums of the raw rows' contributions, the filters dropping only rows that contribute nothing |
| Programs.NinetyNineOnlyWhole | data/pipeline/build_dataset.py:111 | only a code equal to "99" is excluded: a "9901" row counts in family "99", labelled "Other" |
| Patterns.NextClose | src/data/academic-questions.json.js:13 | the first '>' from a position on, or none |
| Patterns.CommentAt | src/data/academic-questions.json.js:13 | a match of `<!--([^>]+)-->` at a position: opener, a non-empty run without '>', closer |
| Patterns.NextCloseAt | src/data/academic-questions.json.js:13 | a '>' with none before it from a position on is the one found |
| Patterns.CommentFound | src/data/academic-questions.json.js:13 | conversely, an opener, a non-empty run without '>' and a closer are a match, closing at the closer's '>' |
| Patterns.CommentInPiece | src/data/academic-questions.json.js:13 | a match inside a slice of the text is a match of the whole text at the same place |
| Patterns.SplitComments | src/data/academic-questions.json.js:13 | `src.split(/<!--([^>]+)-->/)` gives an odd number of parts, text pieces interleaved with captures |
| Patterns.SplitRejoin | src/data/academic-questions.json.js:13 | splitting loses nothing: the pieces, with each capture put back in its markers, rebuild the text |
| Patterns.SplitCaptures | src/data/academic-questions.json.js:13 | every capture is non-empty and holds no '>' |
| Patterns.SplitNoComment | src/data/academic-questions.json.js:13 | a text without a comment opener splits into itself alone |
| Patterns.SplitFromTextFree | src/data/academic-questions.json.js:13 | from a position before which nothing matches, no text piece of the split holds a match |
| Patterns.SplitTextFree | src/data/academic-questions.json.js:13 | no text piece of `split` holds a comment: the split cuts at every comment in the text |
| QuestionBlocks.Sections | src/data/academic-questions.json.js:17-19 | the pairs read at i = 1, 3, 5, …: as many as the loop visits |
| QuestionBlocks.SectionRead | src/data/academic-questions.json.js:18-19 | what the loop reads at i = 2k + 1 is pair k, and `(i - 1) / 2` is k |
| QuestionBlocks.SectionsOfSplit | src/data/academic-questions.json.js:13-19 | each pair of a split text is the trimmed capture and the trimmed text after it; headers hold no '>' |
| QuestionBlocks.LastBodyIsLast | src/data/academic-questions.json.js:21-24 | the last pair headed `intro` (or `outro`) decides the field, whatever came before it |
| QuestionBlocks.LastBodyAbsent | src/data/academic-questions.json.js:15 | without such a pair the field keeps its initial "" |
| QuestionBlocks.LastBodyStep | src/data/academic-questions.json.js:21-24 | one more pair replaces the field exactly when its header is the field's name |
| Patterns.RunLength | src/data/academic-questions.json.js:26 | the run of `[^"]` (or `\d`) characters from a position: all match, and the next one does not |
| Patterns.AttrAt | src/data/academic-questions.json.js:26 | a match of `name="(v)"` at a position: the text there starts with it; v is non-empty and made of value characters |
| Patterns.FirstAttrAt | src/data/academic-questions.json.js:26 | the leftmost matching position from a point on, or none |
| Patterns.MatchAttr | src/data/academic-questions.json.js:26 | `header.match(/name="([^"]+)"/)?.[1]`: present exactly when some position matches, and then the capture at the leftmost match |
| Patterns.AttrFoundAt | src/data/academic-questions.json.js:26 | conversely, the literal, a non-empty run of value characters and '"' at a position are a match there, with that run as the capture |
| Patterns.FirstAttrAtIs | src/data/academic-questions.json.js:26 | the leftmost match is at k when k matches and no earlier position does |
| Patterns.AttrAfter | src/data/academic-questions.json.js:26 | an attribute written after a text in which the literal does not start is the leftmost match, and `match(...)?.[1]` is its value |
| Patterns.QuotedAfter | src/data/academic-questions.json.js:26 | a non-empty, quote-free value written so is the `[^"]+` capture |
| Patterns.QuoteFreeNoEarlier | src/data/academic-questions.json.js:26 | a text without quotes hides no earlier start of a `name="` literal |
| QuestionBlocks.IdAndKind | src/data/academic-questions.json.js:26-27 | id and type are the attributes' captures, or `q<ordinal>` and "radio" when absent; a captured id is non-empty and quote-free |
| QuestionBlocks.IdWritten | src/data/academic-questions.json.js:26 | a header `question…id="v"…`, with no earlier `id="` in it, opens a question whose id is v |
| QuestionBlocks.KindWritten | src/data/academic-questions.json.js:27 | a header `question…type="v"…`, with no earlier `type="` in it, opens a question whose type is v |
| QuestionBlocks.IdOfWrittenHeader | src/data/academic-questions.json.js:26 | the header `question id="q1" type="checkbox"` yields the id q1 |
| QuestionBlocks.DefaultIdsDistinct | src/data/academic-questions.json.js:26 | default ids of different pairs differ |
| Decimal.NatToDigits | src/data/academic-questions.json.js:26 | the template-literal rendering of a number: digits, with no leading zero except for 0 |
| Decimal.DigitsRoundTrip | src/data/academic-questions.json.js:26 | a rendered number reads back as itself |
| Decimal.DigitsCanonical | src/data/academic-questions.json.js:30 | a digit string without a leading zero is the rendering of its own value |
| Decimal.IntRoundTrip | data/pipeline/build_dataset.py:98 | the canonical rendering of an integer reads back as that integer |
| Decimal.IntToString | data/pipeline/build_dataset.py:98 | the canonical rendering of an integer is an integer literal |
| AcademicQuestions.DependsValuesOfCapture | src/data/academic-questions.json.js:29 | `dependsValues` is null exactly when there is no `depends-values="…"`; otherwise it is the comma pieces of the capture, each trimmed, and the pieces rebuild the capture |
| AcademicQuestions.DependsValuesWritten | src/data/academic-questions.json.js:29 | trimmed, comma-free values written as `depends-values="a,b,…"` in a `question…` header, with no earlier `depends-values="`, read back as exactly those values |
| AcademicQuestions.MaxSelectOfCapture | src/data/academic-questions.json.js:30 | `maxSelect` is null exactly when no `max-select="digits"` appears, else the value of the leftmost digits |
| AcademicQuestions.MaxSelectWritten | src/data/academic-questions.json.js:30 | a number written as `max-select="n"` in a `question…` header, with no earlier `max-select="`, reads back as n |
| JsStrings.TrimStart | src/data/academic-questions.json.js:33 | `trimStart`: the longest suffix not starting with whitespace, only whitespace removed |
| JsStrings.TrimEnd | src/data/academic-questions.json.js:50 | `trimEnd`: the longest prefix not ending with whitespace, only whitespace removed |
| JsStrings.Trim | src/data/academic-questions.json.js:18 | the trimmed text neither starts nor ends with whitespace |
| JsStrings.TrimIsSlice | src/data/academic-questions.json.js:18 | the trimmed text is a slice of the text with only whitespace before and after it |
| JsStrings.TrimWithin | src/data/academic-questions.json.js:18 | trimming adds no character |
| JsStrings.TrimNoEdges | src/data/academic-questions.json.js:18 | a text with no whitespace at either end is its own trim |
| JsStrings.TrimIdempotent | src/data/academic-questions.json.js:50 | trimming twice is trimming once |
| JsStrings.TrimEmpty | src/data/academic-questions.json.js:34 | `l.trim() !== ""` fails exactly on all-whitespace lines |
| JsStrings.Split | src/data/academic-questions.json.js:32 | `split` on one character gives at least one piece |
| JsStrings.SplitPieces | src/data/academic-questions.json.js:29 | no piece of a split holds the separator |
| JsStrings.JoinSplit | src/data/academic-questions.json.js:29 | joining the pieces of a split gives back the text |
| JsStrings.SplitJoin | src/data/academic-questions.json.js:29 | splitting a join of separator-free pieces gives back the pieces |
| JsStrings.SplitNoSep | src/data/academic-questions.json.js:32 | a body without a newline is one line |
| JsStrings.SplitOnFirst | src/data/academic-questions.json.js:32 | a split cuts at the first separator and goes on with the rest |
| Seqs.Filter | src/data/academic-questions.json.js:33 | `filter`: exactly the elements passing the test, no more of them than there were |
| Seqs.FilterByIndices | data/pipeline/build_dataset.py:151 | the filter keeps exactly the elements at the increasing positions whose element passes, in order |
| Seqs.KeptIndicesCongruent | data/pipeline/build_dataset.py:151 | two lists whose elements pass the tests at the same positions keep the same positions |
| Seqs.FirstWhere | src/data/academic-questions.json.js:40 | `findIndex`: the first position passing the test, or none when no element passes |
| Seqs.RemoveAt | src/data/academic-questions.json.js:43 | `filter((_, j) => j !== pi)`: the list without position pi, the others in order |
| Seqs.MapSeq | src/data/academic-questions.json.js:51 | `map`: f of each element, position by position |
| Patterns.StripLead | src/data/academic-questions.json.js:42 | `replace(/^\s*lit\s*/, "")`: when the trimmed-start line starts with the literal, what follows it with leading whitespace removed; otherwise the line unchanged |
| Patterns.OptionTextOfMarked | src/data/academic-questions.json.js:51 | an option line `  - text ` reads as the trimmed text |
| QuestionBlocks.ReadBody | src/data/academic-questions.json.js:32-51 | the loop body's field computation equals `BodyFields`: options from the option lines; a textarea's first placeholder line as the placeholder; the remaining non-blank lines joined and trimmed as the text |
| QuestionBlocks.OptionTextOfLine | src/data/academic-questions.json.js:51 | an option line loses its leading whitespace and its dash, and is trimmed |
| QuestionBlocks.OptionsOfBody | src/data/academic-questions.json.js:31-51 | one option per option line, in order, each the line without its leading whitespace and dash, trimmed |
| QuestionBlocks.PlaceholderTextOfLine | src/data/academic-questions.json.js:42 | a placeholder line loses its leading whitespace and its `placeholder:` prefix, and is trimmed |
| QuestionBlocks.TrimStartNoSpace | src/data/academic-questions.json.js:42 | the `\s*` after the prefix is subsumed by the final trim |
| QuestionBlocks.TextLinesClean | src/data/academic-questions.json.js:32-50 | option lines and blank lines never reach the text: every text line is a body line that is neither |
| QuestionBlocks.PlaceholderAbsent | src/data/academic-questions.json.js:36-45 | outside a textarea, or without a placeholder line, the placeholder is "" and the text takes every non-option line |
| QuestionBlocks.PlaceholderFirst | src/data/academic-questions.json.js:39-44 | in a textarea, the first placeholder line gives the placeholder and is the one line removed from the text |
| AcademicQuestions.QuestionOf | src/data/academic-questions.json.js:26 | a pair yields a question exactly when its header starts with "question" |
| AcademicQuestions.QuestionDefaults | src/data/academic-questions.json.js:26-55 | a question carries its id and type, or the defaults; `dependsOn` is null without the attribute; only a textarea has a placeholder |
| AcademicQuestions.ReadPair | src/data/academic-questions.json.js:18-57 | one pass of the loop body: the result extended by pair k exactly as the specification of the whole walk prescribes |
| AcademicQuestions.Walk | src/data/academic-questions.json.js:17-58 | the loop over the parts yields the intro and outro of the last such pairs, and the questions of the pairs in order |
| AcademicQuestions.Parse | src/data/academic-questions.json.js:13-58 | the loader: the last intro and outro bodies, and one question per `question` header of the split text, in document order |
| VibeQuestions.QuestionOf | src/data/vibe-questions.json.js:26 | a pair yields a question exactly when its header starts with "question" |
| VibeQuestions.ReadPair | src/data/vibe-questions.json.js:19-52 | one pass of the loop body: the result extended by pair k exactly as the specification of the whole walk prescribes |
| VibeQuestions.Walk | src/data/vibe-questions.json.js:18-53 | the loop over the parts yields the intro and outro of the last such pairs, and the questions of the pairs in order |
| VibeQuestions.Parse | src/data/vibe-questions.json.js:14-53 | the loader: the last intro and outro bodies, and one question per `question` header, in document order |
| VibeQuestions.AgreesWithAcademic | src/data/vibe-questions.json.js:45-51 | on the same text both loaders give the same intro, outro and number of questions, and agree on id, type, text, options and placeholder of each |

## Left out

- Reading and writing files is not modelled. This covers `_read_csv` with its encoding fallback on the pipeline side; `readFileSync`, the JSON written to standard output and the progress lines on the loader side; and `to_csv` and the output directory. Each table or text is a parameter, and each result a return value.
- `CIPCODE` is read as text (`dtype=str`); pandas infers the type of every other column, so a cell is a number, a text (names such as `INSTNM`, `CITY` and `STABBR`) or missing. The model takes the frames after that inference, so each cell is already a number, a text or missing.
- Institutions.Join: pandas' `_x`/`_y` suffixes for column names both frames share are not modelled. The requires states that the joined names are new to the base frame, as in the pipeline's fixed inputs.
- Institutions.BuildInstitutions: which loaded row each joined row extends is stated only when every auxiliary file has one row per UNITID. Otherwise pandas fans out; the model then promises that no row is lost and that every cell comes from the loaded frame or, in a joined column, is numeric or missing. The output is stated as the kept labelled joined rows either way.
- Institutions.LoadInstitutions: requires `SECTOR`. In pandas a missing column raises `KeyError`, which ends the run; that failure is not modelled as an error result, here or in the members below.
- Institutions.Join: requires `UNITID` in the base frame and the key and source value columns in the auxiliary file (`Provides`), where pandas would raise `KeyError`.
- Institutions.JoinStage, Institutions.JoinChain, Institutions.JoinAll: pass on the requires of `Join`.
- Institutions.AddLabels: requires `SECTOR` and `LOCALE`, where pandas would raise `KeyError`.
- Institutions.BuildInstitutions: requires the directory's `UNITID`, `SECTOR` and `LOCALE` and the auxiliary files' columns, where pandas would raise `KeyError`.
- Programs.BuildPrograms: requires `UNITID`, `AWLEVEL`, `CIPCODE` and `CTOTALT`, where pandas would raise `KeyError`.
- Institutions.LocaleGroup: requires the LOCALE cell to be missing, a number, or an integer token. `int()` raises on any other text, and that exception is left out.
- Institutions.LocaleGroup: Python's `int()` also accepts surrounding whitespace and `_` digit separators in text. These are not modelled.
- Frames.Coerce: `to_numeric` is modelled on decimal tokens only: optional sign, digits, optional fraction. Exponents, surrounding whitespace, `inf` and float rounding are left out, and numbers are exact reals with no NaN.
- Programs.GroupSumSpec: groups are produced in order of first appearance, not pandas' sorted key order. The keys and totals are proved; the row order is not.
- Programs.BuildPrograms: sums are exact reals rather than floats.
- AcademicQuestions.MaxSelect: `parseInt` is exact for any length of digits here. The loss of precision beyond 2^53 is not modelled.
- JsStrings.Trim: strings are sequences of characters rather than UTF-16 code units, so a surrogate pair is one character.
- Patterns.SplitComments: the model is not a general regular-expression engine. The three patterns the loaders use are matched by hand-written functions that follow their semantics; the split is the ECMAScript split with captures.
- `src/components/collegeCard.js`, `observablehq.config.js` and `tests/test_pipeline.py` are not part of this model.
