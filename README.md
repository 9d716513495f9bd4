# xray-monitor report builder, in Dafny

`xray-monitor.py` asks the Xray proxy for its traffic counters. It turns
them into a plain-text report and posts that report to a chat webhook.
This project models the part of the script that builds the report, and
proves properties of it:

- **Counter names.** Each counter is named like
  `user>>>alice>>>traffic>>>downlink`. The script splits the name on `>>>`.
  Segment 1 is the user label and segment 3 is the traffic type. A name with
  too few segments makes Python raise `IndexError`, and the run stops
  (module `StatName`).
- **The report.** The report starts as the capture time followed by a
  newline. For each counter, in the order the query returned them, the
  script appends a block of four lines:
  - `User Name: <user> `
  - `Traffic Type: <type> `
  - `Data Usage: <amount>GB`, or an empty line when the counter has no value
  - 40 dashes

  When the stats command failed, the report is the time line alone. The
  text posted is the report with its leading and trailing whitespace
  stripped (module `Report`).
- **Python string operations.** `str.split` with a separator is modelled as
  leftmost, non-overlapping cutting. `str.join` and `str.strip()` are
  modelled too (module `PyStr`). `Wrappers` holds `Option` and `Result`.

The loop at lines 34-49 is `Report.BuildContent`. It is a method with a
`for` loop whose invariant ties the text built so far to `Report.Accumulate`
applied to the entries processed so far. The loop's postcondition is
`Report.Content`, and the lemmas state what the source promises about that
function. Three things are parameters of the model:

- the `IndexError` is a `Result` error that records the position of the entry that raised it;
- the capture time is a string;
- the gigabyte formatting `str(round(v / 1024**3, 2))` is a function `gb: nat -> string`.

## Model

| member | source | states |
|---|---|---|
| PyStr.Split | xray-monitor.py:39 | the pieces of the name cut at `>>>`; its own contract says there is at least one piece, and it is characterised by `PyStr.JoinSplit`, `PyStr.SplitPiecesAreFree` and `PyStr.PieceOfSplit` |
| PyStr.IndexOfIsLeftmost | xray-monitor.py:39 | what the separator search finds is an occurrence, with none between the start position and it; when it finds nothing, there is none at all from the start position on |
| PyStr.SegmentEndIsNextSeparator | xray-monitor.py:39 | a segment ends at the next separator or at the end of the string, and no separator starts inside it |
| PyStr.JoinSplit | xray-monitor.py:39 | joining the pieces of `s.split(sep)` with `sep` gives back `s` |
| PyStr.SplitPiecesAreFree | xray-monitor.py:39 | no piece of `s.split(sep)` contains `sep` |
| PyStr.PieceOfSplit | xray-monitor.py:39 | piece `n` of a split exists exactly when there are `n` separators to skip; it then runs from just after the `n`-th one to the next separator or the end |
| PyStr.SplitAfterFirst | xray-monitor.py:49 | helper of the line-count property `Report.OneSeparatorLinePerEntry` (the report split on newlines, which the script itself never does): splitting a string whose first separator is at `k` gives the text before `k`, then the pieces of what follows the separator |
| PyStr.FirstCharSeparator | xray-monitor.py:49 | helper of the line-count property `Report.OneSeparatorLinePerEntry`: a one-character separator absent from `a` is first found right after `a` |
| PyStr.Strip | xray-monitor.py:58 | no contract of its own; definition of `content.strip()` as `StripChars` with Python 3's whitespace set, characterised by the `StripChars` contract and `PyStr.StripCharsUnique` |
| PyStr.StripChars | xray-monitor.py:58 | the result is an infix of the input; everything before and after it is stripped characters; it is empty or starts and ends with a kept character |
| PyStr.StripCharsUnique | xray-monitor.py:58 | any infix with only stripped characters around it, which is empty or starts and ends with kept characters, is what strip returns |
| PyStr.StripCharsIgnoresTrailing | xray-monitor.py:58 | appending a stripped character does not change the result of strip |
| PyStr.StripCharsDropsLast | xray-monitor.py:58 | a string whose first and next-to-last characters are kept and whose last one is stripped loses just that last character |
| StatName.UserOf | xray-monitor.py:39 | no contract; definition of `name.split('>>>')[1]` or the user `IndexError`, characterised by `StatName.UserIsSecondSegment` |
| StatName.TypeOf | xray-monitor.py:41 | no contract; definition of `name.split('>>>')[3]` or the type `IndexError`, characterised by `StatName.TypeIsFourthSegment` |
| StatName.ParseName | xray-monitor.py:39-41 | no contract; the user lookup then the type lookup, the first failure raising, characterised by `StatName.ParseNameNeedsFourSegments` |
| StatName.UserIsSecondSegment | xray-monitor.py:39 | the user label is the text after the first `>>>`, up to the second one or the end; with no `>>>` the lookup raises the user `IndexError` |
| StatName.TypeIsFourthSegment | xray-monitor.py:41 | the traffic type is the text after the third `>>>`, up to the fourth one or the end; with fewer than three the lookup raises the type `IndexError` |
| StatName.ParseNameNeedsFourSegments | xray-monitor.py:39-41 | a name yields both fields exactly when it has at least 4 segments: fewer than 2 fail at the user lookup, 2 or 3 at the type lookup; the fields are segments 1 and 3, they hold no `>>>`, and the segments joined give back the name |
| Report.UsageLine | xray-monitor.py:43-47 | no contract; the usage line or the empty string, characterised by `Report.MissingValueLeavesUsageEmpty` |
| Report.Block | xray-monitor.py:49 | no contract; the text appended per entry, characterised by `Report.BlockEndsWithSeparator` and `Report.ContentIsItsLines` |
| Report.RenderItem | xray-monitor.py:39-49 | no contract; an entry's block or its lookup error, characterised by `Report.MissingValueLeavesUsageEmpty` and `Report.FailsAtFirstBadEntry` |
| Report.Accumulate | xray-monitor.py:34-49 | no contract; the report after a prefix of the entries, characterised by `Report.FailsAtFirstBadEntry`, `Report.EarlierContentIsKept` and `Report.ContentIsHeaderThenBlocks` |
| Report.Content | xray-monitor.py:34-49 | no contract; the report for the query's output, characterised by `Report.ContentStartsWithTimestampLine`, `Report.ContentIsHeaderThenBlocks` and `Report.ContentIsItsLines` |
| Report.BuildContent | xray-monitor.py:34-49 | the loop returns `Content`: the time line, then one block per entry, or the `IndexError` of the entry that stopped it |
| Report.FailsAt | xray-monitor.py:38-41 | an entry whose name lacks a field stops the report with its own error and position, provided every entry before it was processed |
| Report.FailsAtFirstBadEntry | xray-monitor.py:38-41 | the report fails exactly when some name lacks a field, and then with the error and position of the first such entry |
| Report.EarlierContentIsKept | xray-monitor.py:49 | the report for a prefix of the entries is a prefix of the report for all of them |
| Report.ContentStartsWithTimestampLine | xray-monitor.py:34-37 | without stats output the report is exactly the time line; with stats output, a successful report starts with it |
| Report.ContentIsHeaderThenBlocks | xray-monitor.py:38-49 | a successful report is the time line followed by one block per entry, in input order, each block being that entry's rendering |
| Report.BlockEndsWithSeparator | xray-monitor.py:49 | every block ends with 40 dashes and a newline |
| Report.MissingValueLeavesUsageEmpty | xray-monitor.py:43-47 | a counter without a value is not an error and gets an empty usage line; with value `v` the line is `Data Usage: ` + gb(v) + `GB` |
| Report.ContentIsItsLines | xray-monitor.py:35-49 | a successful report is its lines, each followed by a newline: the time, then the four lines of each block |
| Report.OneSeparatorLinePerEntry | xray-monitor.py:38-49 | when no field, time or amount holds a newline, splitting the report on newlines gives its lines and an empty last piece, and exactly as many lines are the dash line as there are entries |
| Report.PayloadText | xray-monitor.py:58 | the posted text exists exactly when the report does; it neither starts nor ends with whitespace, so in particular it does not end with a newline |
| Report.PayloadDropsFinalNewline | xray-monitor.py:58 | when the time starts and ends with a non-whitespace character, the posted text is the report minus its final newline |
| Report.PayloadWithoutStats | xray-monitor.py:58 | without stats output the posted text is the stripped time |

## Left out

- `getProcessOutput`, the subprocess call and its return-code check, and the Python-version gate (lines 11-32) are process I/O. The model takes their outcome as an `Option` of the decoded stats list: `None` when the command failed.
- JSON decoding (line 38) is left out. The model starts from the decoded `stat` list, each entry a name and an optional natural-number counter. A reply without a `stat` key or without a `name` raises `KeyError` in the script; the model does not cover that.
- The clock and `strftime` (line 35) are left out; the time string is a parameter.
- The division by 1024³ and `round(..., 2)` (line 44) are the parameter `gb`. Under Python 3 the division is floating-point; under Python 2, which the version check at line 11 also admits, it is whole-number floor division. Since `gb` is uninterpreted, the model covers both. Nothing is assumed about `gb` except in `Report.OneSeparatorLinePerEntry` and the lemmas it uses (`Report.ReportLinesShape`, `Report.EntryLinesShape`, `Report.UsageLineShape`), which require that its output hold no newline.
- A Python `str` decoded by `json.loads` can hold lone surrogates (a JSON `"\ud800"`); a Dafny `char` is a Unicode scalar value, so the model's counter names are limited to scalar values.
- The webhook URL, the headers, `json.dumps`, the HTTP POST and the final printout (lines 56-63) are network I/O and are left out.
- The `sqlite3` import (line 7) is unused.
- `str()` at line 49 is modelled as the identity. Under Python 2 it would raise `UnicodeEncodeError` on non-ASCII labels; the model follows Python 3 string semantics.
- `PyStr.Whitespace` is the set of characters for which Python 3's `str.isspace()` is true. Under Python 2, `strip()` on a byte string removes ASCII whitespace only.
- The script splits a name twice, once per field (lines 39 and 41). `Report.BuildContent` splits it once and uses the result for both fields, which gives the same value.
- Report.OneSeparatorLinePerEntry: requires that the time, the fields and the formatted amounts hold no newline, and that the time is not itself a dash line. Without those conditions the lines of the report do not line up with the entries, so the count does not hold.
