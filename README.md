# Bank ticket dispenser: counter table, counter file and ticket issue

The program is a queue-ticket dispenser for a bank counter, in one file,
`Program.cs`. Despite its extension the file is Python. Its class
`DistributeurTickets` keeps a counter table `compteurs` in memory. The table
has one count per operation code: `V` (Versement), `R` (Retrait) and
`I` (Informations). The table is persisted in a text file with one
`code:count` line per code.

This project models:
- the counter table (`CounterFile.Table`, starting at `CounterFile.Zero`);
- reading the counter file at start-up (`initialiser_compteurs`);
- writing the file back (`sauvegarder_compteurs`);
- issuing a ticket (`generer_ticket`).

The modules are:
- `Wrappers`: the `Option` type.
- `PyText`: the Python string operations the program relies on, with their proofs:
  - `str.strip` (`Strip`);
  - `str.split` on one character (`Split`);
  - the lines read by `readlines` with universal newlines, without their line ends (`ReadLines`; see "## Left out" for how this differs from `readlines`);
  - `int()` on a string (`ParseInt`);
  - `str()` of an integer (`IntToString`).
- `CounterFile`:
  - the table;
  - the file format written by the serialiser (`Serialize`);
  - the parser, line by line (`Classify`, `ApplyLine`, `ApplyLines`).

  It also holds the parse properties and the round trip.
- `Tickets`: the pure specification of one ticket request and of a run of requests:
  - `OperationCode`, `TicketNumber`, `IssueStep`, `IssueAll`;
  - the properties of a run: counts, numbering in steps of one, distinct tickets.
- `Dispenser`: the class `TicketDispenser`.
  - Its fields are `counters` and `file`. The file is an `Option<string>`, and `None` means the file does not exist.
  - Its constructor and the methods `Load`, `Save` and `Issue` follow the source step by step. `Load` has a loop over the lines, and `Save` has a loop over the codes.
  - Each method is proved against the functions of `CounterFile` and `Tickets`.

The machine's file system is an input:
- The file's content is passed in.
- Whether opening the file fails is given by the flags `readFails` and `writeFails`.
- When an open fails, the model does what the program's exception handler does: it keeps the state it has.

Two points of the code's behaviour are worth stating:
- The handler of `initialiser_compteurs` prints at Program.cs:47 that the default counters (0) are used. It does not reset them: the counters keep the values parsed before the failure. One cause is a line with two or more ':', which makes the two-value unpack at line 39 raise.
- `int()` accepts a sign, so a count read from the file may be negative, and the table keeps it. The table's type allows any integer.

## Model

| member | source | states |
|---|---|---|
| PyText.Strip | Program.cs:39 | computes `strip()`: the line without its leading and trailing whitespace, whitespace being the characters Python's `str.isspace` accepts (properties in StripEnds and StripKeepsCount) |
| PyText.TranslateNewlines | Program.cs:35-36 | computes the universal-newline translation of text-mode reading: "\r\n" and a lone "\r" become "\n" (properties in TranslateNewlinesFacts) |
| PyText.ReadLines | Program.cs:36 | computes the lines of the translated text, split at '\n', without their line ends (properties in ReadLinesHaveNoBreaks and ReadThreeLines) |
| PyText.ParseInt | Program.cs:42 | computes `int(s)`: after skipping the whitespace `int()` skips (TrimIntSpace: that of `strip()` except U+001C..U+001F), an optional '-' or '+' and a non-empty run of ASCII digits; anything else is the ValueError case, `None` (properties in ParseDigitsOnly, ParseSignedDigits and IntRoundTrip) |
| PyText.TrimIntSpace | Program.cs:42 | computes the text `int()` converts: the count without the leading and trailing whitespace `int()` skips, i.e. "\t\n\v\f\r " and the non-ASCII characters `str.isspace` accepts, but not U+001C..U+001F |
| PyText.TrimIntSpaceKeeps | Program.cs:42 | a count with no such whitespace at its ends is converted as it is |
| PyText.SeparatorControlNotSkipped | Program.cs:42-44 | a count made of one of U+001C..U+001F followed by digits is a ValueError for `int()` (so lines 43-44 store 0), although `strip()` would drop that character |
| PyText.IntToString | Program.cs:53 | computes `str(n)`: a '-' for a negative n, then the decimal digits of its magnitude (properties in IntToStringChars and IntRoundTrip) |
| CounterFile.EntryText | Program.cs:53 | computes one written entry `f"{code}:{count}"`, without its newline (properties in EntryReads) |
| CounterFile.SerializeCodes | Program.cs:52-53 | computes the entries for a list of codes, in that order, each followed by '\n' |
| CounterFile.Serialize | Program.cs:51-53 | computes the whole file text, the entries for V, R and I in the table's insertion order (properties in SerializeLines and SerializeRoundTrip) |
| CounterFile.Classify | Program.cs:38-39 | computes how a line is read: skipped when it has no ':', an unpack failure when the stripped line does not split into exactly two parts, otherwise its key and count (properties in ClassifyCases and EntryLineReads) |
| CounterFile.CountValue | Program.cs:41-44 | computes the value stored for a count: `int(count)`, or 0 when `int()` raises ValueError |
| CounterFile.ApplyLine | Program.cs:38-44 | computes the effect of one line: skipped, the abort of the parse, an ignored unknown key, or the code set to its count's value (properties in SkippedLines, ApplyFieldLine and AbortStopsParse) |
| CounterFile.ApplyLines | Program.cs:37-47 | computes the parse of all lines in order from a table: the final table, or the table at the first aborting line (properties in ApplyLinesAppend, LastMentionWins, UnmentionedCodeKept and AbortStopsParse) |
| Tickets.TicketNumber | Program.cs:66 | computes the ticket `f"{code}-{n}"` (properties in TicketNumberParts and TicketNumberInjective) |
| Dispenser.LoadedCounters | Program.cs:27-47 | computes the counters after start-up: unchanged for a missing or unreadable file, otherwise the parse of its lines (Load is proved against it) |
| Dispenser.CreatedFile | Program.cs:29-32 | computes the file after start-up: a missing file becomes `V:0\nR:0\nI:0` unless the write fails, an existing one is left as it is (Load is proved against it) |
| PyText.StripLeftKeepsSuffix | Program.cs:39 | the left part of `strip()` keeps a suffix of the line; every character it drops is whitespace; the result does not start with whitespace |
| PyText.StripRightKeepsPrefix | Program.cs:39 | the right part of `strip()` keeps a prefix; every character it drops is whitespace; the result does not end with whitespace |
| PyText.StripEnds | Program.cs:39 | a stripped line has no whitespace at either end; a line without whitespace at its ends is left as it is |
| PyText.StripLeftAppendSpace | Program.cs:39 | the left strip of a text followed by a whitespace character is the text's left strip followed by that character, or empty when the text is all whitespace |
| PyText.StripDropsTrailingSpace | Program.cs:39 | a whitespace character at the end of a line, such as its line end, makes no difference to `strip()` |
| PyText.StripKeepsCount | Program.cs:38-39 | stripping keeps the number of occurrences of every non-space character, so the ':' found by the test on line 38 are still there for the split |
| PyText.Split | Program.cs:39 | `split` always returns at least one part |
| PyText.SplitCount | Program.cs:39 | `split(':')` gives one more part than the line has ':', and no part contains ':' |
| PyText.SplitAtFirst | Program.cs:39 | splitting `a + sep + rest`, where `a` has no separator, gives `a` followed by the parts of `rest` |
| PyText.SplitAtLast | Program.cs:36 | splitting `x + sep + c`, where `c` has no separator, gives the parts of `x` followed by `c` |
| PyText.SplitWithoutSeparator | Program.cs:39 | a string without the separator splits into itself alone |
| PyText.SplitKeepsAbsent | Program.cs:36 | a character absent from the text is absent from every part |
| PyText.TranslateNewlinesFacts | Program.cs:35-36 | reading in text mode leaves no '\r'; a text without '\r' is read unchanged |
| PyText.ReadLinesHaveNoBreaks | Program.cs:36 | no line returned by `readlines` contains '\n' or '\r' once its line end is dropped |
| PyText.DigitChar | Program.cs:53 | the digit character for a value below 10 is a decimal digit that denotes that value |
| PyText.NatToStringDigits | Program.cs:53 | `str(n)` for n >= 0 is non-empty, all decimal digits, denotes n, and has no leading zero unless n is 0 |
| PyText.IntToStringChars | Program.cs:53 | `str(n)` is digits with at most a leading '-', and ends in a digit |
| PyText.ParseDigitsOnly | Program.cs:42 | `int()` reads a non-empty run of digits as its decimal value |
| PyText.ParseSignedDigits | Program.cs:42 | `int()` reads '-' followed by digits as the negated value |
| PyText.IntRoundTrip | Program.cs:53 | `int(str(n)) == n`, so a written count is read back by line 42 for every integer n, negative ones included (without the interpreter's digit limit, see "## Left out") |
| CounterFile.ClassifyCases | Program.cs:38-39 | a line is skipped exactly when it has no ':'; the unpack fails exactly when it has two or more ':'; otherwise neither part holds a ':' |
| CounterFile.EntryLineReads | Program.cs:38-39 | a line `key:count` whose parts have no ':' and no whitespace at the outer ends is read as that key and that count |
| CounterFile.ApplyLinesAppend | Program.cs:37-44 | reading `a + b` is reading `a` and then `b` from the table `a` left, unless reading `a` aborted |
| CounterFile.UnmentionedCodeKept | Program.cs:37-40 | a code that no line sets keeps its starting value (0 from the initial table of line 21), whether the parse completes or aborts |
| CounterFile.LastMentionWins | Program.cs:40-44 | the last line that sets a code decides its value: the parsed count, or 0 when the count is not an integer |
| CounterFile.SkippedLines | Program.cs:38-40 | any line without ':', and any line whose stripped key is not V, R or I, leaves the table unchanged |
| CounterFile.LineEndIgnored | Program.cs:36-39 | a line read with its '\n', as `readlines` returns it, is classified exactly as the line without it |
| CounterFile.UnknownKeyIgnored | Program.cs:39-40 | a `key:count` line whose key is not V, R or I is read as that key and count, and ignored |
| CounterFile.AbortStopsParse | Program.cs:39-47 | a line with two or more ':' ends the parse; later lines are not read, and the table keeps what earlier lines set |
| CounterFile.ApplyFieldLine | Program.cs:40-44 | a `code:count` line for a known code sets that code to the count's value and reading continues |
| CounterFile.SkipEmptyTail | Program.cs:38 | the empty piece after a final newline changes nothing |
| CounterFile.ReadThreeLines | Program.cs:36 | three lines joined by newlines are read back as those three lines, followed by one empty line when the text ends in a newline |
| CounterFile.EntryReads | Program.cs:53 | each written `code:count` entry reads back as its code and exactly its count, and contains no line break |
| CounterFile.NumberHasNoSeparator | Program.cs:53 | a written count contains no ':' and no line break, and does not end in whitespace |
| CounterFile.SerializeLines | Program.cs:52-53 | the file text is the V, R and I entries in that order, each followed by a newline |
| CounterFile.SerializeRoundTrip | Program.cs:49-55 | parsing the text the serialiser writes gives back the same table, for any integer counts (without the interpreter's digit limit, see "## Left out") and from any starting table |
| CounterFile.DefaultTextReadsZero | Program.cs:31-32 | the text written for a missing file, `V:0\nR:0\nI:0`, reads back as all-zero counters |
| CounterFile.TolerantParse | Program.cs:37-44 | `V:abc\nR:3\nbogusline\n` reads as V 0, R 3, I 0: a bad count reads as 0, a line without ':' is skipped, an unmentioned code keeps 0 |
| Tickets.OperationCode | Program.cs:59-62 | exactly Versement, Retrait and Informations have a code (any other name is the failed lookup); the code is one of V, R, I and is the name's initial |
| Tickets.TicketNumberParts | Program.cs:66 | a ticket number is the code, then '-', then text that `int()` reads back as the number |
| Tickets.StrInjective | Program.cs:66 | `str()` never writes two different numbers the same way, since `int()` reads each back |
| Tickets.TicketNumberInjective | Program.cs:66 | two ticket numbers are equal exactly when their codes and numbers are |
| Tickets.IssueStep | Program.cs:57-71 | an unknown name changes no counter; a known one adds exactly 1 to its own counter, leaves the others unchanged, and returns ticket `code-new count` with the old count as the number waiting |
| Tickets.IssueAll | Program.cs:57-71 | a run of requests returns one result per request |
| Tickets.IssueAllCounts | Program.cs:62-71 | after a run each counter has grown by the number of requests for its code, and request k gets the ticket numbered one past the starting count plus the earlier requests of its code |
| Tickets.CountForGrows | Program.cs:63 | the number of earlier requests of a code grows strictly past each request of that code |
| Tickets.TicketsDistinct | Program.cs:62-66 | no two tickets issued in one run are equal |
| Dispenser.RestartRestoresCounters | Program.cs:49-55 | a dispenser started on a readable file saved by another one starts with the saved counters |
| Dispenser.RestartAfterCreation | Program.cs:29-32 | after a missing file has been created, the next start-up reads all counts as 0 |
| Dispenser.TicketDispenser.constructor | Program.cs:20-25 | a new dispenser starts from all-zero counters and then loads the counter file |
| Dispenser.TicketDispenser.Load | Program.cs:27-47 | a missing file is created with the default text unless writing fails, and the counters stay as they are; an unreadable file changes nothing; otherwise the counters are the result of reading the lines in order, up to an aborting line |
| Dispenser.TicketDispenser.Save | Program.cs:49-55 | the file becomes the serialised table, or stays as it was when opening it for writing fails; the counters do not change |
| Dispenser.TicketDispenser.Issue | Program.cs:57-71 | the counters and the result are those of `IssueStep` on the previous counters, even when saving fails; the file then holds the new counters, except for an unknown name or a failed write |

## Left out

- Choosing the directory of the counter file and the fallback to the program's own directory (Program.cs:6-20): the file is an input.
- Real file access, the existence check and the printed error messages (Program.cs:29-31, 35, 45-47, 51, 54-55). The file is an `Option<string>` field, and an open that fails is a flag.
- A write that fails after the file was opened: the model treats every write failure as a failed `open`, which leaves the file unchanged. In fact truncation may have happened first, leaving an empty or partial file.
- A file that cannot be decoded as text is treated like a failed read (`readFails`).
- The interactive prompts and input loops, the session's `clients` list and its display, and the `__main__` entry point: console interface with no bearing on the counters.
- Line ends on write: the model writes '\n'. On Windows, text mode writes "\r\n", which reading back translates to '\n' again.
- PyText.ParseInt: models `int()` as whitespace, an optional sign, then ASCII decimal digits. It leaves out underscores between digits and non-ASCII digits, which Python also accepts. Its whitespace is `strip()`'s minus U+001C..U+001F (TrimIntSpace), the set the conversion skips.
- PyText.ParseInt, PyText.IntToString: leave out the limit on the number of digits converted between `int` and `str` (4300 by default since Python 3.11; it depends on the interpreter version and on `sys.set_int_max_str_digits`). Past that limit `int()` at line 42 raises ValueError, so the count becomes 0 where the model keeps the number. Also, `str()` raises, which happens in the f-string at line 53 after the file was opened and truncated, and at line 66 out of `generer_ticket`. IntRoundTrip and SerializeRoundTrip therefore hold on those interpreters only for counts with fewer digits than the limit.
- PyText.ReadLines: returns the lines without their line ends. After a final newline it returns one more, empty, line, and for an empty file it returns one empty line. Python's `readlines` returns the lines with their '\n', has no such extra line, and returns nothing for an empty file. The parse is the same on both: a line with its '\n' is classified as the line without it (LineEndIgnored), and the extra empty line has no ':' and changes nothing (SkipEmptyTail).
- The KeyError raised for an unknown operation name is modelled as the result `None` (and `UnknownOperation`), not as an exception. The program does not catch this error, so it reaches the caller. The model leaves the counters and the file unchanged, as the program does.
