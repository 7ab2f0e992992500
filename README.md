# ai-cli-tools: the sequential text-record transformations

This project models the sequential parts of the `ai-cli-tools` command-line
utilities and proves what each one produces. The tools work on streams of
records, where a record is a line, or a NUL-terminated field in null mode.
The model takes each stream as the `seq<string>` of records its scanner yields,
plus a flag saying whether the scanner failed after the last one.

- **Markdown section splitter** (`Markdown.SplitBySections`). A loop over the
  lines that looks one line ahead. It asks a writer generator for writer 0,
  then for writer 1, 2, … each time a section starts. A section starts at an
  ATX heading (`#…`). It also starts at a line whose next line is a setext
  underline: `===`, or `---` under a non-empty line. The generator is the
  test spy, which appends a fresh buffer to a list. `Sections` is the
  specification, and the loop is proved to write exactly its rendered
  sections. The spy keeps a ghost log of the writer requests and closes, in
  order, and the contract of `SplitBySections` states that log.
- **Chunkers** (`Split.SplitByLineCount`, `Split.SplitByTotalCount`). These
  write lines into numbered files through the spy open-file function, which
  is a map from path to buffer. The path generator is an arbitrary
  `int -> string`. `Chunks` is the arithmetic-free specification of the
  line-count split. `NewChunkAt` proves that Go's test `n % lineCount == 0`
  opens exactly those chunks. The total-count split is modelled as written,
  including its panic, and also in a corrected form (see Findings).
  `SplitByLineCount` never closes its last writer. The spy counts the
  `Close` calls made on its writers (`closes`), and the split's ghost
  result `closed` is the growth of that count, so this shows in its
  contract.
- **stdinsub** (`StdinSub.Subtract`). Writes the minuend records that occur in
  no subtrahend, in minuend order, each followed by its terminator.
- **stdinsubst** (`StdinSubst.Substitute`, `StdinSubstOptions.ParseOptions`).
  Positional arguments are paired into replacements. Each pair is flattened
  into the argument list of `strings.NewReplacer`, with the replacement
  file's content in the second place. `GoStrings.Replace` models that
  replacer: it scans left to right, matches never overlap, and at one
  position the earliest pair wins.
- **stdinexec** (`StdinExec`, `StdinExecOptions`). Renders the command for one
  record with `strings.ReplaceAll(arg, "{}", record)`. Formats each line a
  worker copies from its child: the bare line when `parallel == 1`, otherwise
  `"<i>\t<line>\n"`. Also resolves the options.
- **Option resolution** (`CommonOptions.ValidateCommonOptions`,
  `StdinSplitOptions.ParseOptions`): what happens after the flags are parsed.
- **Record writers** (`Lines.WriteLine`, `Lines.WriteLines`,
  `MdSplitSec.WriteFilePaths`) and the test I/O doubles
  (`TestableIO.Buffer`, `TestableIO.SpyOpenFileFunc`).

In `tools/stdinsplit/cmd/options.go`, the variable named `templateLong` is
bound to the flag `-t`, and `templateShort` to `-template`. The code therefore
prefers `-t`, and the model follows the code. The flag values are named after
their flags.

The tests in `split/split_test.go` build expected maps but never compare them.
Their empty-input expectation for the line-count split contradicts the code,
so the model follows the code: empty input opens no file and returns no path.

## Model

| member | source | states |
|---|---|---|
| CommonOptions.ValidateCommonOptions | tools/commonoptions.go:25-33 | Help is set exactly when the raw Help is. Version is set exactly when Help is not and `-v` or `-version` is. Never both. The zero value when no flag is set. |
| Lines.WriteLine | lines/lines.go:8-16 | Appends the line and then NUL in null mode, or a newline otherwise. Always succeeds. |
| Lines.WriteLines | lines/lines.go:18-25 | Appends the records of all lines in order, so an empty list writes nothing. Always succeeds. |
| Lines.RecordsAppend | lines/lines.go:18-24 | Writing `xs + ys` writes the records of `xs` and then those of `ys`. |
| Lines.UnframeRecords | lines/lines.go:8-24 | Splitting the written text at its terminators gives back the lines, when no line holds the terminator. |
| Markdown.Sections | markdown/split.go:61-106 | There is always at least one section, even for empty input. |
| Markdown.GroupNonEmpty | markdown/split.go:72-106 | Every section after the first is non-empty, for any choice of section-opening lines. Only the text before the first opening line can form an empty section. |
| Markdown.GroupCoverInput | markdown/split.go:72-106 | The sections, concatenated, are the input lines in order, for any choice of section-opening lines. Each line is in exactly one section. |
| Markdown.SectionsRenderInput | markdown/split.go:72-106 | The section texts, concatenated, are the input with each line newline-terminated, including a last line without a newline. |
| Markdown.GroupStarts | markdown/split.go:72-102 | Sections after the first begin exactly at the section-opening lines. |
| Markdown.SectionStartsAt | markdown/split.go:72-102 | Line `j` begins a section if and only if it is a heading or is underlined. |
| Markdown.HeadingStartsSection | markdown/split.go:80-102 | A `#` line always begins a section, including as the last line. |
| Markdown.UnderlinedStartsSection | markdown/split.go:73-79 | A line followed by `===`, or by `---` when it is non-empty, begins a section. |
| Markdown.HorizontalRuleNeverSplits | markdown/split.go:73 | An empty line followed by `---` does not begin a section. The rule line begins one only if it is itself underlined. |
| Markdown.EarlierSectionsAreFinal | markdown/split.go:74-77 | When a line opens a section, the sections before it are the first sections of the final split. |
| Markdown.ProtocolShape | markdown/split.go:47-59 | Writers are requested with indices 0, 1, 2, … without gaps, and each one is closed before the next request. |
| Markdown.SpyWriterGenerator.constructor | markdown/split.go:35-40 | A new spy holds no buffers and has logged no call. |
| Markdown.SpyWriterGenerator.Generate | markdown/split.go:35-39 | Logs the request. Appends a fresh empty buffer and returns a writer over it. |
| Markdown.SpyWriterGenerator.Write | markdown/split.go:27-29 | Appends to the writer's buffer and leaves every other buffer unchanged. |
| Markdown.SpyWriterGenerator.Close | markdown/split.go:31-33 | Close succeeds, leaves every buffer as it is, and is logged. |
| Markdown.NextWriter | markdown/split.go:47-59 | Closes the previous writer, then requests writer `n`; the generator's log grows by exactly those calls. A failed request adds no buffer. |
| Markdown.Emit | markdown/split.go:78-79 | Appends the line and a newline to the current writer's buffer only. |
| Markdown.OpenSection | markdown/split.go:73-86 | A section-opening line gets a new writer and is written to it. A refused writer ends the split with the earlier sections written. |
| Markdown.ContinueSection | markdown/split.go:87-90 | A continuing line is appended to the current section. |
| Markdown.SplitBySections | markdown/split.go:44-115 | The buffers hold exactly the rendered sections, one buffer per section. The generator's log shows writers 0..n-1 requested in turn, each closed before the next request, and the last one closed. The result is the scanner's error. If writer k cannot be created, it reports that error after writing only sections 0..k-1, and the log ends at that request. |
| MdSplitSec.WriteFilePaths | tools/mdsplitsec/cmd/cmd.go:47-57 | Writes each path in list order, followed by NUL in null mode or a newline otherwise. Always succeeds. |
| MdSplitSec.ReportSplit | tools/mdsplitsec/cmd/cmd.go:37-44 | The returned paths are written before the split's error is reported. |
| TestableIO.SpyOpenFileFunc.constructor | testableio/testableio.go:37-39 | A new spy has opened no path and counted no Close. |
| TestableIO.SpyOpenFileFunc.OpenFile | testableio/testableio.go:49-58 | An unseen path gets a new empty buffer. A known path keeps its buffer and content, whatever the flags. No other path changes. |
| TestableIO.SpyOpenFileFunc.Write | testableio/testableio.go:25-28 | Appends to the path's buffer and leaves every other buffer unchanged. |
| TestableIO.SpyOpenFileFunc.Close | testableio/testableio.go:29-31 | Close succeeds, leaves every buffer as it is, and is counted. |
| Split.StoreKeys | testableio/testableio.go:41-56 | The spy's map holds exactly the paths it held before plus the paths opened. |
| Split.StoreKeepsOthers | testableio/testableio.go:50-56 | A buffer whose path is not opened again keeps its content. |
| Split.StoreDistinct | testableio/testableio.go:50-56 | When distinct new paths are opened, each path holds exactly the text written to it. |
| Split.ChunksFlatten | split/split.go:43-45 | The chunks, concatenated, are the lines in input order. |
| Split.ChunksSizes | split/split.go:29-45 | Every chunk but the last holds exactly `lineCount` lines. The last holds between 1 and `lineCount`. |
| Split.ChunkCount | split/split.go:29-51 | There are ceil(lines / lineCount) chunks, so empty input makes none. |
| Split.NewChunkAt | split/split.go:30-36 | `n % lineCount == 0` holds exactly when the current chunk is full or there is none. `n / lineCount` is then the new chunk's index. |
| Split.ChunkBoundary | split/split.go:30-36 | Line `n` starts a chunk exactly when the chunks so far are all full, and `n / lineCount` then names that chunk. |
| Split.StartChunk | split/split.go:30-44 | Closes the previous writer (one more Close counted by the spy) and opens the next chunk's file, then writes the line to it. A refused open ends the split with no paths, after the previous writer was closed. |
| Split.ContinueChunk | split/split.go:43-45 | Appends the line to the current chunk's file. |
| Split.SplitByLineCount | split/split.go:22-52 | The spy's map holds the chunks' texts under their paths. The paths come back in creation order. The spy counts chunks - 1 Close calls, so the last writer is never closed. With `lineCount == 0`, the first line panics. A scan error or an open error returns no paths. An open error at chunk j comes after all j earlier writers were closed. |
| Split.LineCountFiles | split/split.go:22-52 | On success, there are ceil(len/lineCount) files and file k is named by index k. Each file holds chunk k. The chunks cover the input in order, and all but the last hold `lineCount` lines. |
| Split.LinesPerFile | split/split.go:64 | The result is the integer ceiling of len/totalCount: the least value whose product with totalCount covers len. |
| Split.OffsetIsProduct | split/split.go:76 | The first line of file `i`, counted as `i` steps of `lc`, is `i * lc`. |
| Split.PartIsSlice | split/split.go:76-78 | When `i * lc` is not past the end, file `i` gets exactly the slice `ls[i*lc : min(i*lc + lc, len)]`. |
| Split.PartsFlatten | split/split.go:76-80 | Files 0..k-1 together hold the lines before `k * lc` (as `Offset(k, lc)`), in order. |
| Split.PartsCover | split/split.go:64-80 | With ceil(len/totalCount) lines per file, the files together hold every line in order, and none holds more than that. |
| Split.OverrunsIff | split/split.go:76-78 | Some file's slice starts past the end exactly when the last file's slice does. |
| Split.FiveLinesOverFourFilesOverrun | split/split.go:64-78 | Five lines over four files gives two lines per file, and file 3 starts at line 6, past the end. |
| Split.ReadAll | split/split.go:57-60 | The first loop collects every line in order. |
| Split.WritePart | split/split.go:78-80 | Appends `ls[start:end]`, each line newline-terminated, to the file's buffer only. |
| Split.MakeFile | split/split.go:67-85 | One iteration as written: open (or fail with the paths so far), take the slice (panicking when it starts past the end), write, close; the spy counts one Close whether the slice panics or not. |
| Split.WritePartAndClose | split/split.go:73-84 | Writes the file's part after what the spy held and closes it, so the split's progress grows by that file and by one counted Close. |
| Split.SplitByTotalCount | split/split.go:54-88 | A scan error opens nothing. Otherwise files 0..totalCount-1 are opened in order, each holding its part and closed, and their paths are returned. An open error returns the paths so far. An overrunning slice panics. |
| Split.FiveLinesOverFourFilesPanic | split/split.go:64-85 | Five lines into four files panics at file 3, after three files are made. |
| Split.MakeClampedFile | split/split.go:67-85 | One iteration of the corrected loop, where the slice start is cut to the number of lines. |
| Split.SplitByTotalCountClamped | split/split.go:54-88 | The corrected split, with the same outcome shape as SplitByTotalCount and no panic. |
| Split.ClampedSplitFiles | split/split.go:54-88 | The corrected split never panics. On success, with distinct new paths, file k holds part k, and the parts cover the input in order with at most ceil(len/totalCount) lines each. |
| StdinSub.RecordSet | tools/stdinsub/cmd/cmd.go:47-49 | A record is in the set exactly when it is among the scanned records. |
| StdinSub.UnionMembers | tools/stdinsub/cmd/cmd.go:43-54 | A record is excluded exactly when some subtrahend holds it. |
| StdinSub.FirstFailed | tools/stdinsub/cmd/cmd.go:44-52 | Returns the first subtrahend whose scanner failed, or none. |
| StdinSub.AddRecords | tools/stdinsub/cmd/cmd.go:47-49 | Adds every record of one subtrahend to the set. |
| StdinSub.ReadSubtrahends | tools/stdinsub/cmd/cmd.go:43-54 | Stops at the first failed subtrahend. Otherwise the set is the union of all subtrahends. |
| StdinSub.WriteRecord | tools/stdinsub/cmd/cmd.go:61-66 | Appends the record, then NUL in null mode or a newline otherwise. |
| StdinSub.WriteDifference | tools/stdinsub/cmd/cmd.go:56-68 | Writes each minuend record not in the set, in order. |
| StdinSub.Subtract | tools/stdinsub/cmd/cmd.go:36-75 | A subtrahend scan error returns before any output. Otherwise it writes exactly the minuend records in no subtrahend, in order, then reports any minuend scan error. |
| StdinSub.DifferenceIsSubsequence | tools/stdinsub/cmd/cmd.go:58-67 | The output is a subsequence of the minuend. |
| StdinSub.DifferenceCounts | tools/stdinsub/cmd/cmd.go:58-67 | A record not in any subtrahend appears as often as in the minuend, so duplicates are kept. A record in a subtrahend does not appear. |
| StdinSub.NoSubtrahends | tools/stdinsub/cmd/cmd_test.go:46-50 | With no subtrahends, every minuend record is written. |
| StdinSubstOptions.Flat | tools/stdinsubst/cmd/cmd.go:36 | The flattened list has two entries per replacement. |
| StdinSubstOptions.FlatAt | tools/stdinsubst/cmd/cmd.go:37-44 | Entry `2i` is before_i and entry `2i+1` is after_i. |
| StdinSubstOptions.FlatOfPairs | tools/stdinsubst/cmd/options.go:60-66 | A list whose entries 2i and 2i+1 are the pair's two parts is the flattening of the pairs. |
| StdinSubstOptions.FlatInjective | tools/stdinsubst/cmd/options.go:60-66 | The pairing is unique: two lists of pairs that flatten to the same arguments are equal. |
| StdinSubstOptions.Pair | tools/stdinsubst/cmd/options.go:60-66 | `2k` arguments give `k` replacements, and replacement `i` is (arg 2i, arg 2i+1), in order. |
| StdinSubstOptions.ParseOptions | tools/stdinsubst/cmd/options.go:40-72 | `-h` gives Help with no error. Version returns before the arity check. An odd argument count is an error exactly when no earlier exit applies. An even count always succeeds, and the replacements flatten back to the arguments. |
| StdinSubst.FirstUnreadable | tools/stdinsubst/cmd/cmd.go:37-42 | Returns the first replacement whose file cannot be read, or none. |
| StdinSubst.Loaded | tools/stdinsubst/cmd/cmd.go:37-44 | Gives one loaded replacement per replacement. |
| StdinSubst.ReplacerArgs | tools/stdinsubst/cmd/cmd.go:36-44 | Stops at the first unreadable file. Otherwise the arguments are [before0, content0, before1, content1, …]. |
| StdinSubst.Substitute | tools/stdinsubst/cmd/cmd.go:36-51 | A replacement-file or template read failure writes nothing. Otherwise it writes the template with the replacer applied. |
| StdinSubst.NoReplacementsCopyTemplate | tools/stdinsubst/cmd/cmd.go:45-50 | With no replacements, the output equals the template. |
| StdinSubst.OneReplacementReplacesEvery | tools/stdinsubst/cmd/cmd.go:45-50 | With one replacement, every occurrence is replaced, as by strings.ReplaceAll. |
| GoStrings.ReplaceWithoutPairs | tools/stdinsubst/cmd/cmd.go:45-50 | A replacer without pairs is the identity. |
| GoStrings.ReplaceWithoutOccurrence | tools/stdinsubst/cmd/cmd.go:45-50 | Text in which no before-string occurs passes through unchanged. |
| GoStrings.EarliestPairWins | tools/stdinsubst/cmd/cmd.go:45-50 | Where several before-strings start, the earliest pair wins. Its after-string is emitted, scanning resumes after the matched text, and the after-string is not rescanned. |
| GoStrings.SinglePairIsReplaceAll | tools/stdinsubst/cmd/cmd.go:45-50 | A one-pair replacer equals strings.ReplaceAll, so every non-overlapping occurrence is replaced. With an empty pattern this holds between characters, not bytes. |
| GoStrings.ReplaceAllWithoutOccurrence | tools/stdinexec/cmd/cmd.go:74-76 | ReplaceAll leaves a string without the pattern unchanged. |
| GoStrings.AtoiItoa | tools/stdinexec/cmd/cmd.go:95 | Reading back the decimal worker index gives the index. |
| StdinExec.RenderCommand | tools/stdinexec/cmd/cmd.go:73-76 | The command has the template's length, and argument `j` is template argument `j` with every `{}` replaced by the record. The template is a value and is not changed. |
| StdinExec.PlainArgumentUnchanged | tools/stdinexec/cmd/cmd.go:74-76 | An argument without `{}` is passed on unchanged. |
| StdinExec.RenderPlaceholderRecord | tools/stdinexec/cmd/cmd.go:74-76 | Rendering the record `{}` gives the template back, so rendering replaces only the placeholders. |
| StdinExec.WriteOutputLine | tools/stdinexec/cmd/cmd.go:92-99 | Appends `text + "\n"` when parallel is 1, and `itoa(i) + "\t" + text + "\n"` otherwise. |
| StdinExec.OutputLineTag | tools/stdinexec/cmd/cmd.go:94-98 | With several workers, the text before the first tab is the worker index in decimal, and the child's text lies between that tab and the final newline. |
| StdinExec.CopyOutput | tools/stdinexec/cmd/cmd.go:86-125 | The stdout and stderr loops both append every child line, formatted, in order, and report the scanner's error. |
| StdinExec.OutputLinesAreRecords | tools/stdinexec/cmd/cmd.go:90-100 | A stream's output is the records of its tagged lines: each line is the tag, then the text, then a newline. |
| StdinExec.OutputReadBack | tools/stdinexec/cmd/cmd.go:88-100 | Reading the output back line by line gives each child line behind its tag, in order. |
| StdinExecOptions.ParseOptions | tools/stdinexec/cmd/options.go:41-82 | `-h` gives Help. Version returns before the checks. `-parallel` wins when non-zero, else `-p` is used, and 0 becomes 1. A negative value is an error, and so are no arguments. Success has parallel ≥ 1 and the positional arguments as the command. |
| StdinSplitOptions.ParseOptions | tools/stdinsplit/cmd/options.go:69-152 | `-h` and Version return early with only the common options. The long flag wins when set, except the template, where `-t` wins. An empty out-dir is an error. Both counts zero, or both non-zero, is an error. An empty template becomes `%03d.txt`. Success has exactly one non-zero count, and negative counts are not rejected. |

## Findings

| source | as written | input that shows it | evidently intended | confidence | as-written member | corrected member |
|---|---|---|---|---|---|---|
| split/split.go:76-78 | `start := i * lineCount` is used as a slice start without being cut to `len(ls)`. The end is cut, so `ls[start:end]` panics once `start > len(ls)`. | 5 lines with `totalCount` 4: lineCount = ceil(5/4) = 2, and file 3 has start 6 > 5. (3 lines into 5 files also panics, at file 4.) | The files past the last line are created empty, and the split succeeds. | high; not executed | Split.FiveLinesOverFourFilesPanic | Split.ClampedSplitFiles |

## Left out

- Concurrency in stdinexec: the producer goroutine, the channel, the worker pool, `exec.Command`, pipe draining, `cmd.Wait` and first-error aggregation are not modelled. Only the command rendering and the per-stream output loop (`StdinExec.CopyOutput`) are. The claim that empty input launches nothing belongs to that loop and is not modelled.
- Interleaving of one child's stdout and stderr lines: the two loops run concurrently, so only each stream's own output is stated.
- File system and OS calls are not modelled. `os.OpenFile` is replaced by the spy open-file function. In stdinsplit options, the stat-and-create step on the output directory becomes the boolean `outDirUsable`. This also leaves out the `stat.IsDir()` call on a failed `Stat` (tools/stdinsplit/cmd/options.go:100).
- Reading replacement files and standard input in stdinsubst are given as a map from path to content and an optional template.
- Flag parsing, usage text, version printing and the `main.go` files are not modelled. The options functions start from the parsed flag values and a `ParseStatus`. Because no flag binds the raw Help field, `-h` is the flag package's help error.
- The Help/Version early returns of each `MainCommandByOptions` only print. They are not modelled.
- The options files of splitsec, mdsplitsec and subtract, and the wiring in tools/stdinsplit/cmd/cmd.go and tools/splitsec/cmd/cmd.go, are not modelled.
- The call to the splitter in tools/mdsplitsec/cmd/cmd.go:35-37 is not modelled: the functions it calls are not part of this model. Only what happens after it is (`MdSplitSec.ReportSplit`).
- The record scanners (`bufio.ScanLines`, the NUL scanner) are not modelled. Each stream is the records it yields plus a failure flag. The stripping of a trailing `\r` and the scanner's token-size limit are out.
- `fmt.Sprintf` path templating is an arbitrary function `pathOf: int -> string`.
- The float ceiling at split/split.go:64 is the integer `(len + totalCount - 1) / totalCount`. For `totalCount <= 0` the loop runs zero times and the value is never used.
- Go's `int` is unbounded here. Overflow of `i * lineCount` or `n` is not modelled.
- Strings are sequences of characters, not bytes. Patterns match characters, not UTF-8 bytes.
- An empty before-string in stdinsubst matches at every position. Go's replacer then steps one byte at a time and inserts the after-string inside multi-byte characters. The model inserts it between characters, as `strings.ReplaceAll` does, so `GoStrings.SinglePairIsReplaceAll` holds at character level only.
- Writers never fail, as with `bytes.Buffer` and the spies. The errors the source ignores from `io.WriteString` and `fmt.Fprintln` do not arise.
- The spies of the tests never fail. Their models take a set of refused paths or indices, which is empty for the tests' spies, so that the error paths of the callers can be stated too.
- The spy's `Written` map is its field `m`: the model keeps each buffer's content in the map instead of a pointer to a shared buffer. Aliasing between writers is represented by the path each writer names.
