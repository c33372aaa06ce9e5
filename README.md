# wc clone: counting, metric selection and output, in Dafny

This project models the core of a small `wc` clone written in Go (`main.go`).
The command takes one file name and the boolean options `--lines`/`-l`,
`--words`/`-w` and `--bytes`/`-c`, and prints the requested counts of the
file followed by its name. The core has four parts, one module each:

- **Words**, the word counter (`countWords`). It counts the fields that `strings.Fields` cuts the content into, that is the maximal runs of non-white-space bytes.
- **Lines**, the line and byte counter (`countLinesAndBytes`). A `bufio.Scanner` with the default `ScanLines` split walks the content. For each token the counter adds one line, plus the token's length and one byte. `ScanLines` itself is a function. The scanner is a class whose `Scan` method advances a position. The counter is a method whose loop invariant ties the running totals to the tokens scanned so far.
- **Select**, metric selection. With no option every metric is reported. Otherwise exactly the flagged ones are. Either way the order is lines, words, bytes.
- **Format**, the output line. Each count is rendered in decimal (`fmt.Sprint`) by an indexed loop into a table of strings. The renderings are joined by single spaces, then a space, the file name and a newline follow.

The module **Wc** holds the command's action. `Action` follows the source's branches and appends step by step. `Report` states in one expression what a run prints or fails with, and `Action` is proved equal to it. **Common** holds bytes, results, errors, the `File` a counter opens, and sequence helpers (`IndexOf` plays `bytes.IndexByte`, `Join` plays `strings.Join`).

The file system is a parameter `fs: string -> File`. A `File` is one of three cases:
- `Unopenable`: opening fails;
- `Readable(data)`: the whole content is delivered;
- `ReadFails(data)`: `data` is delivered, then a read fails.

Both counters see the same `File`.

The byte count follows the code rather than the comment beside it. main.go:38 adds one "for the newline character" to each token's length. But `ScanLines` has already dropped one trailing '\r' from the token, so a line ending in "\r\n" counts one byte less than its length including the terminator. `Lines.ByteCount` states the exact relation. `Lines.ByteCountWithoutCR` states the plain length-plus-terminator formula for content without '\r'.

## Model

| member | source | states |
|---|---|---|
| Common.Join | main.go:127 | `strings.Join`: the parts with the separator between neighbours; characterised by `Words.FieldsOfJoin` (splitting a space-joined list gives it back) and `Format.ReadJoined` (the joined renderings read back into the counts) |
| Common.FileError | main.go:16-19 | a counter reports no error exactly for a file that reads in full; a file that cannot be opened gives the open error |
| Words.Fields | main.go:21 | every field `strings.Fields` returns is non-empty and holds no ASCII white space |
| Words.CountWords | main.go:15-22 | on a read in full: the number of fields and no error; on an open or read failure: zero and that error, never a partial count |
| Words.FieldsCountWordStarts | main.go:21 | the word count equals the number of bytes that begin a maximal run of non-white-space bytes (a reference definition independent of `Fields`) |
| Words.NoFieldsIffAllSpace | main.go:20-21 | the word count is zero exactly when the content is all white space, the empty content included |
| Words.LeadingSpace | main.go:20-21 | prepending white space leaves the fields unchanged |
| Words.TrailingSpace | main.go:20-21 | appending white space leaves the fields unchanged |
| Words.FieldsSplitAtSpace | main.go:21 | a white-space byte separates: the fields of `a + [space] + b` are those of `a` followed by those of `b` |
| Words.OneWord | main.go:21 | a non-empty run without white space is exactly one field |
| Words.FieldsOfJoin | main.go:21 | `Fields` inverts joining non-empty words with single spaces |
| Words.FieldsCoverNonSpace | main.go:21 | the fields, laid end to end, are exactly the non-white-space bytes of the content in order |
| Lines.DropCR | main.go:35-36 | `ScanLines` drops one trailing '\r': the token is a prefix of the line, one byte shorter exactly when the line ends in '\r' |
| Lines.Tokens | main.go:35-36 | the tokens the scanner yields, one per line with its '\r' dropped; characterised by `Lines.SegmentsRebuild`, `Lines.LineCount` and `Lines.ByteCount` |
| Lines.ScanLines | main.go:35-36 | one `ScanLines` step on the unconsumed bytes advances at least one byte and at most all of them; its token is the first of the remaining tokens, and the rest follow from the advanced position |
| Lines.SegmentsWithoutLF | main.go:36 | no line the scanner cuts contains a '\n' |
| Lines.SegmentsRebuild | main.go:36 | terminating every line with '\n' gives back the content, plus the one '\n' an unterminated last line lacks |
| Lines.LineScanner.constructor | main.go:35 | a new scanner over a file has every token of the delivered content still to come |
| Lines.LineScanner.Scan | main.go:36 | `Scan` reports true exactly when a token remains; the new token is the first pending one and the pending tokens lose it; at the end the scanner stays as it was |
| Lines.LineScanner.Err | main.go:41 | the scanner ends with an error exactly when a read failed (end of file is no error) |
| Lines.CountLinesAndBytes | main.go:26-46 | returns (bytes, lines, error) in that order; with no error the line count is the number of tokens and the byte count the sum of token length plus one; on an open or read failure zero, zero and that error |
| Lines.LineCount | main.go:35-37 | the line count is the number of '\n' bytes plus one for a non-empty unterminated last line; empty content has no lines |
| Lines.ByteCount | main.go:36-38 | the byte count plus the number of lines ending in '\r' equals the content length, plus one for an unterminated last line |
| Lines.ByteCountWithoutCR | main.go:36-38 | without '\r', the byte count is the content length when it is empty or ends in '\n', and that length plus one otherwise |
| Lines.BytesAtLeastLines | main.go:37-38 | the byte count is never below the line count |
| Select.Keep | main.go:112-120 | the kept metrics are exactly the wanted ones among those offered, and no more of them |
| Select.KeepOrdered | main.go:112-120 | keeping the wanted metrics preserves the fixed order |
| Select.RequestedExactly | main.go:83-120 | a metric is reported exactly when no option is set or its option is set, and the reported metrics come in the order lines, words, bytes without repeats |
| Select.RequestedInTurn | main.go:112-120 | the reported metrics are lines, words and bytes in turn, each when wanted |
| Select.SelectedInTurn | main.go:83-120 | the reported values are the line, word and byte counts in turn, each when wanted |
| Select.DefaultIsAll | main.go:82-92 | with no option the values are `[lines, words, bytes]`, the same as with all three options |
| Select.SelectedLength | main.go:83-120 | three values with no option, otherwise one per option set |
| Select.ValuesAppend | main.go:112-120 | the values of two metric lists appended are the values of each appended |
| Format.Decimal | main.go:125 | a rendering is a non-empty digit string with no leading zero, except "0" itself |
| Format.DecimalRoundTrip | main.go:125 | reading a rendering back as a decimal gives the number |
| Format.CanonicalRoundTrip | main.go:125 | every canonical digit string is the rendering of the number it denotes, so each number has one rendering |
| Format.FormatLine | main.go:127-130 | the printed string always ends in a space, the file name and "\n"; `Format.FormatRoundTrip` shows it determines the counts and the name for a known number of counts, which the options fix (`Select.SelectedLength`) |
| Format.FormatNoCounts | main.go:122-130 | an empty count list prints a space, the name and a newline |
| Format.FormatRoundTrip | main.go:122-130 | the printed line parses back into the counts and the file name when the number of counts is known |
| Format.FormatResult | main.go:122-130 | the indexed loop renders each count into its slot and the line is the joined renderings, a space, the name and "\n" |
| Wc.MeasureCounts | main.go:21-38 | the counts of readable content through independent definitions: lines are the '\n' bytes plus one for an unterminated last line, words are the bytes that begin a word, and bytes plus the dropped '\r's are the content length plus one for an unterminated last line |
| Wc.Report | main.go:70-131 | the outcome of a run: failure exactly when the name is missing or the file does not read in full, `MissingFilename` when the name is missing, and on success a line ending in a space, the name and "\n"; `Wc.DefaultReportsAll` relates its option cases |
| Wc.Action | main.go:70-131 | the action returns what `Report` specifies; a missing file name fails before any counting; the action fails exactly when the name is missing or the file does not read in full |
| Wc.DefaultReportsAll | main.go:82-120 | running with no option reports the same as running with all three options, failures included |
| Wc.FormatThree | main.go:122-130 | three counts print as their renderings separated by spaces, then a space, the name and "\n" |
| Wc.SampleWords | main.go:21 | "hello world\nfoo\n" has three words |
| Wc.SampleLines | main.go:35-38 | "hello world\nfoo\n" has two lines and sixteen bytes |
| Wc.SampleCounts | main.go:15-46 | "hello world\nfoo\n" measures two lines, three words and sixteen bytes |
| Wc.SampleDefault | main.go:83-130 | with no option, content measuring 2, 3, 16 prints "2 3 16 name\n" |
| Wc.SampleWordsOnly | main.go:95-130 | with `-w` only, that content prints "3 name\n" |
| Wc.SampleLinesAndBytesOnly | main.go:103-130 | with `-l -c`, that content prints "2 16 name\n" |
| Wc.SampleFileDefault | main.go:15-130 | a file holding "hello world\nfoo\n" prints "2 3 16 name\n" with no option |
| Wc.SampleFileWordsOnly | main.go:15-130 | that file prints "3 name\n" with `-w` only |
| Wc.SampleFileLinesAndBytesOnly | main.go:26-130 | that file prints "2 16 name\n" with `-l -c` |
| Wc.EmptyReport | main.go:82-130 | an empty file prints "0 0 0 name\n" with no option |

## Left out

- The `urfave/cli` application (main.go:49-69, 136-138) is left out: building the app, registering flags, short-option handling, `app.Run` and `log.Fatal`. The action receives the positional arguments and the three options as plain booleans.
- `NumFlags()` counts options given on the command line, so an explicit `--words=false` counts as one. The model takes "no option" to mean all three booleans are false.
- `os.ReadFile`, `os.Open`, `file.Close` and the `defer` are OS I/O. The file system is the parameter `fs`. The ways a file can fail are the cases of `File`, and the Go error values become the `Error` datatype.
- The exact bytes a failing read delivers, and the error's text, are not modelled: `ReadFails(data)` abstracts both.
- `bufio.Scanner` internals beyond `ScanLines` are left out: buffer growth and refills, and the 64 KiB `ErrTooLong` limit. The scanner sees all delivered bytes at once, as at end of file.
- `strings.Fields` also treats non-ASCII Unicode white space (such as U+0085, U+00A0 and U+3000 in UTF-8) as a separator. The model uses the ASCII set '\t', '\n', '\v', '\f', '\r', ' ' only.
- `fmt.Printf` to standard output is left out. The model produces the string that would be printed, and error values are returned rather than printed.
- The counts are Go `int`s, whose width depends on the target. On 64-bit targets no file can overflow them. On 32-bit targets (such as `386` and `arm`) the byte count of a file over 2 GiB would wrap to a negative number at main.go:38. The model's unbounded `nat`s do not capture that wrap-around.
- Each counter opens the file separately. The model does not capture a file that changes between the two reads: both counters see the same `File`.
