# optifuzz core, modelled in Dafny

optifuzz looks for C programs whose timing depends on their inputs once a
compiler optimises them. The system has three parts, and this project
models the logic at the heart of each.

- **Assembly inspection.** Each generated program is compiled at `-O0` to
  `-Os`. From each assembly text the inspection pulls the list of branch
  mnemonics: every tab-prefixed `j…` instruction in text order. A program
  is flagged when the list at O1, O2 or O3 differs from the list at O0.
  The newer report generator uses a second pattern. It skips `jmp`, adds
  the `loop…` family and puts the jumps before the loops.
- **Fuzzer.** The fuzzer (user space or a kernel module) draws `count`
  input pairs from one of eight distributions. It times every input over
  `ITERATIONS` passes into a matrix. Each cell starts at `UINT64_MAX` and
  keeps the minimum. The kernel module writes its records into a linked
  list of 1000-byte chunks. It serves that list, and a status text,
  through two `/proc` read handlers that advance the reader's position.
- **Report generator.** It reads the compile flag and fuzz class from
  the bracketed tokens of a result file's first line. It trims compiler
  output to the function body and cuts the head off the program listing.
  It bins the clock column into at most 100 labelled bins, and it lays
  out the flags three to a page, each page with its own colours and
  blank slots.

Modules, one per file:

| file | module | models |
|---|---|---|
| text.dfy | `Text` | the Python and C string operations the rest relies on |
| branch_scan.dfy | `BranchScan` | both branch patterns as left-to-right scanners, and `findall` over them |
| assembly_inspection.dfy | `AssemblyInspection` | the O0–O3 verdict and `analyze` |
| report_text.dfy | `ReportText` | bracket tokens, `trim_assembly`, listings, program file names |
| binning.dfy | `Binning` | bin counts, linspace edges, bin labels |
| report_layout.dfy | `ReportLayout` | grouping into pages, colours, subfigure slots |
| fuzzer_core.dfy | `FuzzerCore` | distributions, input generation, the measurement matrix, `analysis_st` |
| kernel_buffer.dfy | `KernelBuffer` | the chunk list (`OutputList`, `Link`) and the `/proc` read handlers |
| kernel_fuzzer.dfy | `KernelFuzzer` | the kernel module's `set_values`, `write_data`, `run` and `start` |

The model's inputs replace the hardware and the outside world:

- The random source is a `Draw` record per input pair.
- The cycle timer is a table `timing[j][i]` per pass and input.
- The compiler's output is a string.
- A result file's first line is a string.
- The clock column of a result file is a sequence of naturals.

## Model

| member | source | states |
|---|---|---|
| Text.Split | analysis/latex_generator.py:399 | one more piece than there are newlines, and no piece holds a newline |
| Text.JoinSplit | analysis/latex_generator.py:399-408 | joining the pieces of a split with the separator gives back the original text |
| Text.SplitJoin | analysis/latex_generator.py:399-408 | splitting a join of newline-free lines gives back exactly those lines |
| Text.AfterNewlines | analysis/latex_generator.py:379 | the text after the `n`-th newline is a suffix of the input; it is missing exactly when there are fewer than `n` newlines (the `IndexError`) |
| Text.RemoveAll | analysis/data_analysis.py:138 | removing a pattern never lengthens the text, and a text without the pattern's first character is unchanged |
| Text.RemoveAllSuffix | analysis/data_analysis.py:138 | a pattern appended to text that does not contain its first character is removed exactly once |
| Text.RemoveChar | analysis/latex_generator.py:292 | the result holds exactly the characters of the input other than the removed one |
| Text.Basename | analysis/data_analysis.py:137 | the base name is the slash-free suffix of the path, preceded by a `/` whenever it is shorter than the path |
| Text.Strlen | fuzzer/km_fuzzer/km_fuzzer.c:136-139 | the length up to the first zero byte: no zero before it, and a zero at it when it is inside the text |
| Text.Truncate | fuzzer/fuzzer_core.c:312-319 | `snprintf` keeps a prefix of at most `size - 1` characters, and the whole text when it fits |
| Text.NatToDecimal | fuzzer/km_fuzzer/main.c:405 | `%llu` gives at least one digit, only digits, and no leading zero |
| Text.IntToDecimal | fuzzer/km_fuzzer/main.c:398 | `%lld` starts with a minus sign exactly for negative values |
| Text.DecimalRoundTrip | fuzzer/km_fuzzer/main.c:405 | reading the rendered digits back gives the number |
| Text.DecimalIsPlain | fuzzer/km_fuzzer/main.c:398 | a rendered number holds no comma, newline or bracket, so it cannot break a record's fields or lines |
| BranchScan.RunEnd | analysis/assembly_inspection.py:8 | the end of the maximal run of lower-case letters from a position; greedy `[a-z]+` takes the whole run |
| BranchScan.MatchAt | analysis/latex_generator.py:60 | a match starts at the given position and ends after it inside the text; exactly one of its two groups is non-empty, and the older pattern only has the jump group |
| BranchScan.FindAllSound | analysis/latex_generator.py:424 | every hit `findall` reports is a match of the pattern at its own start, and the hits are in text order without overlap |
| BranchScan.FindAllComplete | analysis/latex_generator.py:424 | every position where the pattern matches lies inside some reported hit |
| BranchScan.JumpHitShape | analysis/assembly_inspection.py:8 | a hit of the jump alternative is a tab, then a mnemonic `j…` that is the whole letter run after the tab |
| BranchScan.LoopHitShape | analysis/latex_generator.py:60 | a hit of the `loop` alternative is `loop`, the rest of the letter run and a space |
| BranchScan.Signature | analysis/assembly_inspection.py:23-24 | one mnemonic per match; each is `j` and at least one lower-case letter, appears after a tab in the text, and a text without a tab has none |
| BranchScan.JumpGroupsShape | analysis/latex_generator.py:425 | every first group is a conditional jump whose letters after `j` do not begin with `mp` |
| BranchScan.LoopGroupsShape | analysis/latex_generator.py:426 | every second group is a `loop` mnemonic |
| BranchScan.GroupsCount | analysis/latex_generator.py:425-426 | each match contributes exactly one mnemonic, to one of the two lists |
| BranchScan.JumpsThenLoops | analysis/latex_generator.py:427 | in the concatenation a `loop` is never followed by a jump |
| BranchScan.ExtractConditionalBranching | analysis/latex_generator.py:412-427 | one mnemonic per match, each a conditional jump or a loop, none starting with `jmp`, jumps before loops, and none for a text with neither a tab nor an `l` |
| BranchScan.NoCandidateNoHits | analysis/latex_generator.py:60 | where no tab and no `l` occurs, the newer pattern finds nothing |
| BranchScan.LoopNeedsSpace | analysis/latex_generator.py:60 | a `loop` mnemonic is reported only when a space follows it in the text |
| BranchScan.JumpsAreSignatureWithoutJmp | analysis/latex_generator.py:424-425 | from any position on, the newer pattern's jump groups are the older pattern's mnemonics without `jmp…`, in the same order |
| BranchScan.NewExtractorRefinesOld | analysis/latex_generator.py:424-427 | the newer extractor returns the older signature without its `jmp…` entries, in the same order, followed by the `loop` mnemonics |
| AssemblyInspection.FlaggedIffSomeDiffers | analysis/assembly_inspection.py:26 | the chained comparison flags a program exactly when O1, O2 or O3 differs from O0 |
| AssemblyInspection.EmptySignatures | analysis/assembly_inspection.py:26 | with no jump at O0, any jump at O1–O3 flags; with no jumps at all, nothing is flagged |
| AssemblyInspection.OsIgnored | analysis/assembly_inspection.py:7-26 | two programs that agree at O0–O3 get the same verdict whatever their Os text |
| AssemblyInspection.JumpGivesSignature | analysis/assembly_inspection.py:8 | a tab, `j` and a lower-case letter in the text give a non-empty signature |
| AssemblyInspection.JumpOnlyAboveO0IsFlagged | analysis/assembly_inspection.py:23-26 | an O0 text without tabs against an O1 text with a jump is flagged |
| AssemblyInspection.Analyze | analysis/assembly_inspection.py:15-27 | the dictionary holds exactly the five levels, each mapped to the signature of its text, and the verdict is the O0–O3 comparison |
| AssemblyInspection.CSources | analysis/assembly_inspection.py:36-39 | exactly the names ending in `.c` are analysed, and nothing else |
| ReportText.CloseAt | analysis/latex_generator.py:291 | the lazy `.*?]` ends at the first `]`, and finds none when a newline comes first |
| ReportText.StripBrackets | analysis/latex_generator.py:292 | the token keeps every character except `[` and `]` |
| ReportText.BracketTokens | analysis/latex_generator.py:291-292 | no token holds a bracket or a newline, and a line without `[` has no tokens |
| ReportText.TokensAfterPlain | analysis/latex_generator.py:291 | text without `[` before a token does not change the tokens found |
| ReportText.TokenAtFront | analysis/latex_generator.py:291-292 | a bracketed plain word is read back as itself, followed by the tokens of the rest |
| ReportText.ParseCsvAux | analysis/latex_generator.py:291-295 | compile flag and fuzz class are the first two tokens; fewer than two tokens is an error |
| ReportText.ParseAuxInfo | analysis/data_analysis.py:39-44 | the same parse as `ParseCsvAux`, read as seed and compile flag: the first two tokens; fewer than two tokens, or a line without `[`, is an error |
| ReportText.FlagsLineRoundTrip | fuzzer/fuzzer.c:34 | the header line the fuzzer writes is parsed back into the flag and class it was written with |
| ReportText.FirstFunctionEnd | analysis/latex_generator.py:400 | the index of the first line starting with `.LFE0`; none when no line does (the `StopIteration`) |
| ReportText.DropCfi | analysis/latex_generator.py:407 | every kept line comes from the input and has no `.cfi`; every input line without `.cfi` is kept |
| ReportText.DropCfiAppend | analysis/latex_generator.py:407 | the filter keeps the order, since it distributes over concatenation |
| ReportText.KeptLinesShape | analysis/latex_generator.py:403-405 | the kept lines are nothing when `.LFE0` is before line 4, one marker when it is line 4, and otherwise a marker, the lines strictly between, and a marker |
| ReportText.TrimAssembly | analysis/latex_generator.py:383-409 | an error exactly when there is no `.LFE0` line or there are fewer than five lines; otherwise the kept lines without `.cfi`, joined |
| ReportText.TrimAssemblyLines | analysis/latex_generator.py:399-409 | the trimmed text, split into lines, is a marker, every line after line 4 and before `.LFE0` without `.cfi` in order, and a marker |
| ReportText.TrimAssemblyShort | analysis/latex_generator.py:403-408 | a function end before line 4 gives an empty text, and one at line 4 gives a lone marker |
| ReportText.ProgramListing | analysis/latex_generator.py:378-380 | the listing starts with an ellipsis line and ends with a suffix of the program; an error exactly when there are fewer than `n` newlines |
| ReportText.ListingDropsLines | analysis/data_analysis.py:165-166 | the lines dropped from a listing are exactly the first `n` lines |
| ReportText.ProgramFilename | analysis/data_analysis.py:137-138 | the program name holds no `/` and is no longer than the path |
| ReportText.ProgramFilenameRoundTrip | analysis/data_analysis.py:137-138 | the result file `dir/name.csv` names the program `name`, for a name without a dot or slash |
| ReportText.ReplaceIsSinglePass | analysis/data_analysis.py:138 | removal is one pass: an occurrence that forms only after another is removed stays |
| Binning.ColumnRange | analysis/latex_generator.py:309 | the minimum and maximum are values of the column, and every value lies between them |
| Binning.OldBinsCount | analysis/data_analysis.py:148-152 | the spread capped at 100: it is the spread or 100, and at most both |
| Binning.OldBinsCountConstantData | analysis/data_analysis.py:148-152 | constant data gives zero bins |
| Binning.BinsCount | analysis/latex_generator.py:309-315 | between 1 and 100 bins, never more than the spread when it is positive, and one bin for constant data |
| Binning.HalfRoundedEven | analysis/latex_generator.py:320 | half the width, exact for even widths and rounded to the even neighbour for odd ones |
| Binning.EdgesMonotone | analysis/latex_generator.py:318 | the edges start at the minimum, end at the maximum and never go down |
| Binning.EdgesStrict | analysis/latex_generator.py:318 | when there are no more bins than the spread, the edges strictly increase |
| Binning.LabelsInBins | analysis/latex_generator.py:319-321 | each label lies inside its own bin |
| Binning.LabelsStrict | analysis/latex_generator.py:319-321 | with strictly increasing edges, each label lies below its bin's right edge and the labels strictly increase |
| Binning.BinLabels | analysis/latex_generator.py:309-321 | an error exactly for an empty column (a result file with no data rows, where `pd.cut` raises); otherwise between 1 and 100 labels |
| Binning.BinLabelsDistinct | analysis/latex_generator.py:309-321 | the labels handed to `pd.cut` for a non-empty column strictly increase, and constant data gets the one label equal to its value |
| Binning.ConstantLabels | analysis/latex_generator.py:315-321 | constant data gets one bin labelled with its value |
| ReportLayout.GroupInThree | analysis/latex_generator.py:620-623 | `(n + 2) / 3` groups of one to three flags, all but the last of three |
| ReportLayout.FlattenGroupInThree | analysis/latex_generator.py:620-623 | the groups read one after another are the flags in their order |
| ReportLayout.LeaveOut | analysis/latex_generator.py:629-630 | the free slots of a group of `n` flags are `n + 1` to 3 |
| ReportLayout.LatexDocGroups | analysis/latex_generator.py:620-646 | an error exactly when there are more than 15 flags; otherwise one page per group, page `j` with colours `3j` to `3j + 2` and the program listing only on the first page |
| ReportLayout.PagesAreWellFormed | analysis/latex_generator.py:464-469 | every page has at least as many colours as flags, so the colour check never fails, and its slots are its plots followed by its blanks |
| ReportLayout.RemoveFirst | analysis/latex_generator.py:487 | `list.remove` drops exactly one occurrence |
| ReportLayout.LayoutLength | analysis/latex_generator.py:473-533 | every flag and every blank index takes exactly one slot |
| ReportLayout.LayoutPlots | analysis/latex_generator.py:481-528 | the plots of a layout are the remaining flags, each once and in order |
| ReportLayout.LayoutPastBlanks | analysis/latex_generator.py:481-533 | with every blank index past the last flag, the slots are the plots followed by the blanks |
| ReportLayout.PlotAsmFigSlots | analysis/latex_generator.py:462-533 | the `while` loop over the flags and the loop over the leftover indices produce the slots `PlotAsmFig` describes |
| ReportLayout.PlotAsmFig | analysis/latex_generator.py:464-533 | an error exactly when colours are short or when there are neither flags nor blank indexes (the width's division by zero); otherwise one slot per flag and per blank index, plotting every flag once, in order |
| FuzzerCore.Min | fuzzer/fuzzer_core.h:17 | the result is at most both arguments, is one of them, and is the first when it is smaller |
| FuzzerCore.Random | fuzzer/fuzzer_core.h:31 | the coin is heads exactly when the drawn word's top bit is set |
| FuzzerCore.GetDist | fuzzer/fuzzer_core.c:42-45 | the table entry at an index is the distribution with that value |
| FuzzerCore.GetDistBijection | fuzzer/fuzzer_core.c:35 | the table has `DIST_COUNT` entries and lists every distribution exactly once |
| FuzzerCore.DistToString | fuzzer/fuzzer_core.c:230-253 | a name exactly for the eight values, and NULL for any other; names are 4 to 7 lower-case letters or digits |
| FuzzerCore.NamesDistinct | fuzzer/fuzzer_core.c:230-253 | two distributions share a name only if they are the same |
| FuzzerCore.Drawn | fuzzer/fuzzer_core.c:54-103 | uniform draws both, equal repeats the draw, max64/umax64/zero pin one side, xlty/ylty order a permutation of the draws, small stays within a byte |
| FuzzerCore.PinnedSide | fuzzer/fuzzer_core.c:66-86 | a pinned pair holds the pinned value on one side and the draw on the other |
| FuzzerCore.RandXLtY | fuzzer/fuzzer_core.h:33-41 | the pair is ordered and is a permutation of the two draws |
| FuzzerCore.SetValues | fuzzer/fuzzer_core.c:54-103 | the written pair is the one the distribution prescribes for the draw |
| FuzzerCore.GenerateInputs | fuzzer/fuzzer_core.c:112-116 | input `i` is drawn with draw `i` for every `i < count`; later slots are untouched |
| FuzzerCore.InitializeMeasurements | fuzzer/fuzzer_core.c:125-130 | every cell of the first `count` columns becomes `UINT64_MAX`; the rest is untouched |
| FuzzerCore.Measure | fuzzer/fuzzer_core.c:208-222 | each cell becomes the minimum of its old value and its timing; no cell grows; columns from `count` on are untouched |
| FuzzerCore.Analysis.constructor | fuzzer/fuzzer_core.c:273-286 | the count is stored, the distribution is uniform, and inputs and matrix are fresh and zero-filled |
| FuzzerCore.Analysis.Run | fuzzer/fuzzer_core.c:260-265 | the inputs are the draws, and each cell holds exactly the timing of its pass and input |
| FuzzerCore.ConstructFilename | fuzzer/fuzzer_core.c:312-319 | at most 49 characters, a prefix of `./result-<name>.csv`, and the whole name when it fits |
| FuzzerCore.FilenamesDistinct | fuzzer/fuzzer_core.c:312-319 | no distribution's file name is truncated, and different distributions get different files |
| KernelBuffer.StatusMessage | fuzzer/km_fuzzer/km_fuzzer.c:206-207 | each status text is one line ending in a newline |
| KernelBuffer.ChunkPlacement | fuzzer/km_fuzzer/km_fuzzer.c:119-127 | with every chunk but the last full, chunk `q` holds the content from `q * LINK_SIZE` on |
| KernelBuffer.ChunkRead | fuzzer/km_fuzzer/km_fuzzer.c:244-267 | the bytes copied from the chunk holding `pos` are the content from `pos` on, up to `count` and the chunk's end |
| KernelBuffer.ReadFromCollectsRest | fuzzer/km_fuzzer/km_fuzzer.c:234-268 | a reader who keeps reading from `pos` collects exactly the content from `pos` on |
| KernelBuffer.Link.constructor | fuzzer/km_fuzzer/km_fuzzer.c:75-84 | a new chunk has no successor, index 0 and a zeroed buffer of `LINK_SIZE` bytes |
| KernelBuffer.OutputList.constructor | fuzzer/km_fuzzer/km_fuzzer.c:68 | at load time the list is empty |
| KernelBuffer.OutputList.WriteChars | fuzzer/km_fuzzer/km_fuzzer.c:107-129 | the content becomes the old content followed by the first `amount` bytes, and every chunk but the last stays full |
| KernelBuffer.OutputList.WriteByte | fuzzer/km_fuzzer/km_fuzzer.c:121-127 | one loop step appends exactly one byte and keeps the last chunk as the write position |
| KernelBuffer.OutputList.NewHead | fuzzer/km_fuzzer/km_fuzzer.c:111-112 | an empty list gets one empty chunk and its content stays the same |
| KernelBuffer.OutputList.LastLink | fuzzer/km_fuzzer/km_fuzzer.c:114-116 | the walk along `next` from the head ends at the last chunk |
| KernelBuffer.OutputList.AppendLink | fuzzer/km_fuzzer/km_fuzzer.c:121-125 | a full last chunk gets one fresh empty successor, and the content stays the same |
| KernelBuffer.OutputList.Push | fuzzer/km_fuzzer/km_fuzzer.c:126-127 | storing a byte in the last chunk appends it to the content |
| KernelBuffer.OutputList.WriteString | fuzzer/km_fuzzer/km_fuzzer.c:136-139 | the bytes up to the string's zero byte are appended |
| KernelBuffer.OutputList.FreeLinks | fuzzer/km_fuzzer/km_fuzzer.c:90-99 | afterwards the list is empty |
| KernelBuffer.OutputList.ProcOutputRead | fuzzer/km_fuzzer/km_fuzzer.c:234-268 | nothing while running or at the end; otherwise the content from `pos`, up to `count` and the end of its chunk, with `pos` advanced by the amount read |
| KernelBuffer.OutputList.ChunkAt | fuzzer/km_fuzzer/km_fuzzer.c:242-254 | the walk of `pos / LINK_SIZE` steps reaches that chunk, or NULL past the last one |
| KernelBuffer.OutputList.PastTheEnd | fuzzer/km_fuzzer/km_fuzzer.c:246-258 | a position whose chunk is past the list is past the content |
| KernelBuffer.ProcStatusRead | fuzzer/km_fuzzer/km_fuzzer.c:200-228 | the status text from `pos`, up to `count` bytes, with `pos` advanced; nothing once `pos` reaches its length |
| KernelFuzzer.LegacySetValues | fuzzer/km_fuzzer/main.c:139-176 | for the five known distributions the pair is the one the distribution prescribes; any other value leaves both sides unchanged |
| KernelFuzzer.LegacyGenerateInputs | fuzzer/km_fuzzer/main.c:291-295 | input `i` is drawn with draw `i` for every `i < count`; later slots are untouched |
| KernelFuzzer.Int64Rendering | fuzzer/km_fuzzer/main.c:398 | a 64-bit signed value renders in at most 20 characters, with no zero byte, comma or newline |
| KernelFuzzer.Uint64Rendering | fuzzer/km_fuzzer/main.c:405 | a 64-bit unsigned value renders in at most 20 digits, so it fits the 100-byte buffer |
| KernelFuzzer.ItHeaderStep | fuzzer/km_fuzzer/main.c:388-393 | each pass adds the column `,it<pass>` |
| KernelFuzzer.RowMinIsMinimum | fuzzer/km_fuzzer/main.c:401-404 | the minimum column is at most every pass value of its row and equals one of them |
| KernelFuzzer.ColumnHeaderFields | fuzzer/km_fuzzer/main.c:387-394 | the column header has `2 + ITERATIONS` commas: the inputs, the minimum and one column per pass |
| KernelFuzzer.RowMatchesHeader | fuzzer/km_fuzzer/main.c:396-414 | every data row has as many fields as the column header |
| KernelFuzzer.HeaderCarriesFlags | fuzzer/km_fuzzer/main.c:379-386 | the second line of a record is the flags line, and the report generator reads the flag and class back from it |
| KernelFuzzer.FormatColumnHeader | fuzzer/km_fuzzer/main.c:387-394 | the header loop builds the column header with one `it` column per pass |
| KernelFuzzer.FormatCell | fuzzer/km_fuzzer/main.c:405-406 | a cell is a comma and the decimal value, untruncated |
| KernelFuzzer.RowMinimum | fuzzer/km_fuzzer/main.c:401-404 | the loop yields the row's minimum, which is at most every pass value |
| KernelFuzzer.FormatRow | fuzzer/km_fuzzer/main.c:398-413 | one row: the input pair, the minimum and the pass values of that input |
| KernelFuzzer.FormatHeader | fuzzer/km_fuzzer/main.c:379-394 | the file line, the flags line and the column header, with each argument up to its zero byte |
| KernelFuzzer.FormatRows | fuzzer/km_fuzzer/main.c:396-414 | one row per input, in input order |
| KernelFuzzer.FormatRecord | fuzzer/km_fuzzer/main.c:371-415 | the header lines followed by the rows of the analysis |
| KernelFuzzer.WriteData | fuzzer/km_fuzzer/main.c:371-415 | the list's content grows by exactly the record of the analysis, and the list stays well formed |
| KernelFuzzer.Measurement | fuzzer/km_fuzzer/main.c:426-428 | the inputs become the draws and each matrix column becomes the timings of that input |
| KernelFuzzer.Run | fuzzer/km_fuzzer/main.c:424-430 | the list grows by the record of one measured run, labelled with the fuzz class passed in |
| KernelFuzzer.ClassOrderCoversEnum | fuzzer/km_fuzzer/main.c:447-460 | the runs cover each of the five distributions the kernel module knows exactly once |
| KernelFuzzer.NamesAreCStrings | fuzzer/km_fuzzer/main.c:447-460 | the class names and file names handed to `run` contain no zero byte |
| KernelFuzzer.RunText | fuzzer/km_fuzzer/main.c:424-430 | one run produces the record, labelled with the fuzz class passed in, from its draws and timings |
| KernelFuzzer.RunClass | fuzzer/km_fuzzer/main.c:447-460 | the `k`-th run uses the `k`-th class of uniform, equal, zero, max64, umax64 and its file `./result-<class>.csv` |
| KernelFuzzer.StartRuns | fuzzer/km_fuzzer/main.c:437-468 | the five runs produce their records in class order |
| KernelFuzzer.Start | fuzzer/km_fuzzer/main.c:437-468 | the list grows by the five records in the order uniform, equal, zero, max64, umax64 |

## Left out

- Cycle timing (`get_time`, with its inline assembly and interrupt control) is hardware. The timings are a parameter of `Measure`, `Analysis.Run`, `Run` and `Start`.
- Randomness (`get_random_bytes`, `arc4random`, `get_random_u32`) is a parameter. A `Draw` holds the values one input pair consumes.
- Compiler and process invocation (`os.popen`, `subprocess.run`, `mv`) is not modelled. The assembly text is an input string, and `flag_file` is not modelled.
- Kernel allocation is assumed to succeed. Neither `kmalloc` failure (`new_link` then dereferences NULL) nor `copy_to_user` failure is modelled.
- The `/proc` file creation and removal and module entry and exit are not modelled.
- km_fuzzer.c's `start` is not modelled. It runs through the queue functions `parse_and_enqueue_classes`, `run_next` and `dist_queue_empty`, which are not part of this model. main.c's `start` is modelled instead.
- km_fuzzer.c and main.c carry the same code in two copies. The chunk list, `write_chars`, `write_string` and both read handlers are modelled once, citing km_fuzzer.c; main.c:107-130, 328-360 and 474-542 are the same code. The copies of `initialize_measurements` and `measure` in main.c (268-308) are `FuzzerCore.InitializeMeasurements` and `FuzzerCore.Measure`.
- `KernelFuzzer.WriteData` and `KernelFuzzer.Start` build the record text first and hand it to the list with one `write_chars`. The source calls `write_string` piece by piece. The list only ever appends, so the content is the same. How the pieces fall on chunk boundaries is not traced call by call.
- `KernelFuzzer.Start` runs the five straight-line calls of main.c as a loop over the class order. The analysis is the model's `FuzzerCore.Analysis` object, shared by all runs as in the source.
- C string arguments are strings without a zero byte. `write_string` takes the part before the first zero byte (`Text.Strlen`).
- The static buffer that `construct_filename` returns is shared between calls. That aliasing is not modelled; `FuzzerCore.ConstructFilename` returns a fresh value.
- `np.linspace(...).astype(int)` is computed with exact rationals: edge `i` is `min + floor(i * diff / bins)`, and the last edge is the maximum. Floating-point rounding error is not modelled.
- `Binning.Edges` and `Binning.Labels` state only their lengths. What the values mean is in `Binning.EdgesMonotone`, `Binning.EdgesStrict`, `Binning.LabelsInBins` and `Binning.LabelsStrict`.
- Binning.ColumnRange: requires a non-empty column. The minimum and maximum of an empty column are NaN in pandas, which the naturals cannot hold. `BinLabels` models that case as the error `pd.cut` raises on an empty column.
- `pd.read_csv` and the counting done by `pd.cut` are not modelled. The column is a sequence of naturals, and the model covers the bin count and labels handed to `pd.cut`.
- The float mean, the subfigure width, the Welch t-test and its p-value decision are not modelled.
- The LaTeX rendering is not modelled: the `Tex*` classes and the `gen_*` string builders of both generators. `ReportLayout` models which flag and which blank lands in which slot, and which colours each page gets.
- `gen_plot_asm_fig` runs a second loop over the flags for the assembly listings. It is not modelled separately: it has the same slot structure as the plot loop, and its content comes from `ReportText.TrimAssembly` and `BranchScan.ExtractConditionalBranching`.
- fuzzer/fuzzer.c is file I/O. The model uses only its header line at line 34, in `ReportText.FlagsLineRoundTrip`.
- `ReportText.ProgramListing` is modelled as the code is written. latex_generator.py:378-380 drops two lines, though its comment says three; data_analysis.py:165-166 drops three.
- experiments.py, fuzzer/fuzz.py, analysis/visualize.py and the util scripts are orchestration and plotting, and are not modelled.

## Findings

| source | as written | input that shows it | evidently intended | confidence | as-written member | corrected member |
|---|---|---|---|---|---|---|
| analysis/data_analysis.py:148-155 | the bin count is the spread capped at 100, with no lower bound | a result file whose clock values are all equal: the spread is 0, so 0 bins go to `np.linspace` and `pd.cut` | at least one bin, as the newer generator does at analysis/latex_generator.py:314-315 | not executed | Binning.OldBinsCountConstantData | Binning.BinsCount |
