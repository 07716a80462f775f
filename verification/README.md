# WhatsApp chat extractor — transcript parser model

A Dafny model of the transcript parser in `whatsapp_extractor/app.py`. The
script reads an exported WhatsApp chat line by line. A line that matches
the header pattern

    ^(\d{1,2}/\d{1,2}/\d{2,4}, \d{1,2}:\d{2}(?: AM| PM)?) - (.*?): (.*)$

opens a record `[DateTime, Sender, Message]`. Any other line is appended,
after a `"\n"`, to the Message of the last record. Lines before the first
header are dropped. When no record comes out, the script reports that no
messages could be parsed. Otherwise it adds a `Word_Count` column,
`len(Message.split())`.

Modules:

- `Text` (`text.dfy`): digits, Python's whitespace set, the `": "` search, and what `$` allows at the end of a line.
- `Header` and `HeaderFacts` (`header.dfy`): the header regex as a recogniser, `MatchLine`. The lemmas show it accepts exactly the lines of header shape (`Match.Valid`, `Match.Line`). They also show each line splits in only one way.
- `Assembler` and `AssemblerFacts` (`assembler.dfy`, `assembler_facts.dfy`): the parse loop, as a left fold (`Parse`) and as a loop (`ParseLoop`). It is proved equal to a front-to-back reference (`Grouped`) that has one record per header line.
- `Words` and `WordsFacts` (`words.dfy`, `words_facts.dfy`): `str.split()` and the word count. The count is proved equal to the number of maximal non-whitespace runs.
- `Transcript` (`transcript.dfy`): the header regex plugged into the loop, the table with its word counts, and the no-messages outcome.
- `Wrappers` (`wrappers.dfy`): `Option` and `Result`.

The loop, its lemmas and `Transcript.Tabulate` take the header matcher as a parameter
(`matcher: string -> Option<Match>`). `Transcript` instantiates it with
`Header.MatchLine`, so every assembler fact applies to the real pattern.

Regex semantics modelled in `MatchLine`:

- `.` matches any character except `'\n'`.
- `$` matches at the end of the line or just before one final `'\n'`.
- The optional `" AM"`/`" PM"` is upper case with one space, and it belongs to the DateTime group.
- The lazy sender group ends at the first `": "` after `" - "`. So the sender never contains `": "`, but the message start may.
- The date/time text contains no `'-'`, so DateTime always ends just before the first `" - "`.

The code has one header pattern. Its `AM`/`PM` must be upper case, and
DateTime is kept as the raw text of capture group 1. For example,
`"12/05/23, 9:03 pm - Alice: hello"` is not a header
(`HeaderFacts.LowerCaseMeridiemRejected`).

## Model

| member | source | states |
|---|---|---|
| Text.StripFinalNewline | whatsapp_extractor/app.py:113 | What `$` allows: the line is the matched text, or the matched text plus one final `'\n'`. |
| Header.ParseStamp | whatsapp_extractor/app.py:113 | Reads capture group 1 off the front of a line. A result is a valid date/time (1–2/1–2/2–4 digits, `", "`, 1–2 digits `:` 2 digits, optional `" AM"`/`" PM"`), and its text followed by the rest is the input. |
| Header.TakeMeridiem | whatsapp_extractor/app.py:113 | The optional upper-case meridiem group: the meridiem's text followed by the rest is the input. That it is taken whenever present is `HeaderFacts.TakeMeridiemGreedy`. That taking it greedily loses no header is `HeaderFacts.TakeMeridiemOf` together with `HeaderFacts.MatchLineExactly`. |
| HeaderFacts.TakeMeridiemGreedy | whatsapp_extractor/app.py:113 | A meridiem is read if and only if the text after the minutes starts with `" AM"` or `" PM"`, so the optional group is greedy. |
| Header.SplitSender | whatsapp_extractor/app.py:113 | The lazy `(.*?): ` group. On success, sender + `": "` + rest is the input and the sender holds no `": "`. It fails only when the input holds no `": "`. |
| Header.MatchLine | whatsapp_extractor/app.py:113-119 | Every match it returns has the header shape. DateTime + `" - "` + Sender + `": "` + message start rebuilds the line, less at most one final `'\n'`. |
| HeaderFacts.ParseStampOf | whatsapp_extractor/app.py:113 | Any valid date/time text is read back as exactly that date/time, with the rest untouched. The only conditions apply to a 24-hour time: the text after it may not start with a digit (the minutes would grow) or with `" AM"`/`" PM"` (the meridiem would be taken). |
| HeaderFacts.SplitSenderOf | whatsapp_extractor/app.py:113 | For any sender free of `": "`, splitting sender + `": "` + start gives back exactly that sender and start, even when start contains `": "`. |
| HeaderFacts.MatchLineOf | whatsapp_extractor/app.py:113-119 | Every header-shaped triple is matched on the line it spells and yields exactly its three groups. |
| HeaderFacts.MatchLineOfNewline | whatsapp_extractor/app.py:113-119 | The same line followed by a final `'\n'`, which `$` lets the match end before, yields the same three groups. |
| HeaderFacts.MatchLineExactly | whatsapp_extractor/app.py:113-119 | `MatchLine(line) == Some(m)` if and only if `m` has the header shape and spells the line. |
| HeaderFacts.HeaderExactly | whatsapp_extractor/app.py:113-118 | A line opens a record if and only if some header-shaped triple spells it. |
| HeaderFacts.MatchUnique | whatsapp_extractor/app.py:113-119 | Two header-shaped triples that spell the same line are equal, so DateTime, Sender and message start are determined by the line. |
| HeaderFacts.NotHeaderAfterStamp | whatsapp_extractor/app.py:113 | A 24-hour date/time followed by a space and then a character other than `-`, `A` or `P` is not a header. |
| HeaderFacts.LowerCaseMeridiemRejected | whatsapp_extractor/app.py:113 | A date/time followed by `" am"` or `" pm"` never opens a record, whatever follows. |
| Assembler.Step | whatsapp_extractor/app.py:116-123 | A header line appends one record, opened from its groups, and leaves the others unchanged. Any other line changes nothing before the first record. After that, it changes only the last record's Message, which becomes old + `"\n"` + line; DateTime, Sender and all earlier records stay the same. |
| Assembler.Parse | whatsapp_extractor/app.py:114-123 | The loop over all lines, as a left fold. It gives at most one record per line and none while no line is a header. When the last line is a header, the last record is the one that header opens. |
| Assembler.HeaderPositions | whatsapp_extractor/app.py:116-120 | Lists the indices of the header lines: all of them, only them, in increasing order. |
| AssemblerFacts.GroupedSnoc | whatsapp_extractor/app.py:116-123 | Reading one more line at the end of the front-to-back grouping is exactly one turn of the loop. |
| AssemblerFacts.ParseIsGrouped | whatsapp_extractor/app.py:114-123 | The loop's left fold equals the reference grouping: one record per header, each with the following non-header lines up to the next header. |
| AssemblerFacts.RecordsFollowHeaders | whatsapp_extractor/app.py:116-123 | The number of records equals the number of header lines. Record k comes from the k-th header line, and its Message is that header's message start followed by `"\n"` + line for each following non-header line, in order. |
| AssemblerFacts.ParseEmpty | whatsapp_extractor/app.py:116-122 | The result is empty if and only if no line is a header. |
| AssemblerFacts.GroupedEmpty | whatsapp_extractor/app.py:116-122 | The reference grouping is empty if and only if no line is a header. |
| AssemblerFacts.LeadingLinesIgnored | whatsapp_extractor/app.py:121-122 | Non-header lines placed before the input do not change the result. |
| AssemblerFacts.FinishedRecordsStay | whatsapp_extractor/app.py:120-123 | Reading more lines never changes a record that already has a successor. The last record so far keeps its DateTime and Sender, and its Message only grows by extension (the old Message is a prefix). |
| AssemblerFacts.ParseAppend | whatsapp_extractor/app.py:116-123 | Reading `more` after `lines` continues the loop from the records of `lines`; the loop state is only the records. |
| AssemblerFacts.ParseLoop | whatsapp_extractor/app.py:114-123 | The `for` loop computes the reference grouping. It yields one record per header line, and none exactly when no line is a header. |
| Words.Split | whatsapp_extractor/app.py:131 | Every token of `str.split()` is non-empty and contains no whitespace. There are at most as many tokens as characters, and none exactly when the message is empty or all whitespace. |
| WordsFacts.WordCountIsRuns | whatsapp_extractor/app.py:131 | `len(s.split())` equals the number of maximal runs of non-whitespace characters in `s`. |
| Words.WordCount | whatsapp_extractor/app.py:131 | `len(x.split())` is at most the length of the message. It is 0 if and only if the message is empty or all whitespace. |
| WordsFacts.WordCountNewlineJoin | whatsapp_extractor/app.py:131 | `wc(a + "\n" + b) == wc(a) + wc(b)`. |
| WordsFacts.WordCountIgnoresSpacing | whatsapp_extractor/app.py:131 | Replacing the whitespace between two texts by any other non-empty whitespace leaves the count unchanged. |
| WordsFacts.WordCountIgnoresPadding | whatsapp_extractor/app.py:131 | Leading and trailing whitespace do not change the count. |
| WordsFacts.RunsAcrossSpace | whatsapp_extractor/app.py:131 | Non-empty whitespace between two texts separates their runs: the count of the whole is the sum of the counts. |
| WordsFacts.SplitKeepsText | whatsapp_extractor/app.py:131 | Concatenating the tokens gives the message with its whitespace removed. |
| WordsFacts.SplitJoinRoundTrip | whatsapp_extractor/app.py:131 | Splitting non-empty, whitespace-free tokens joined by single spaces gives the tokens back. |
| Transcript.Project | whatsapp_extractor/app.py:126-131 | One row per record, in order, carrying its DateTime, Sender and Message. Its word count equals the number of non-whitespace runs of the Message. |
| Transcript.Tabulate | whatsapp_extractor/app.py:116-143 | For any header matcher: reports no messages parsed if and only if no line is a header. Otherwise there is one row per header line, and row k carries the k-th header's DateTime and Sender, its Message with the continuation lines, and that Message's word count. |
| Transcript.Extract | whatsapp_extractor/app.py:113-143 | Reports no messages parsed if and only if no line is a header. Otherwise row k comes from the k-th header line, with its assembled Message and its word count. |
| Transcript.RecordWordCount | whatsapp_extractor/app.py:123-131 | A record's word count is its message start's count plus the counts of its continuation lines. |

## Left out

- Lines 1-84 (a wrapper around CPython's `signal` module) have nothing to do with parsing.
- The Streamlit page, file uploader, ZIP listing and choice of the first `.txt` member, and `decode("utf-8")` and `splitlines()` (lines 86-110) are I/O and library code. The input is the already-split list of lines, as `seq<string>`.
- pandas DataFrame construction, `head()` display, the success message, Excel serialisation and the download button (lines 126-141) are output plumbing. The model stops at the sequence of rows.
- The exception handler (lines 145-146) covers lines 101-143. Nothing in the modelled lines 113-131 can raise, so it only reports failures of the ZIP, decoding, pandas and Excel code, which are left out.
- Header.MatchLine: `\d` is limited to ASCII `0`–`9`. Python's `\d` on `str` patterns also accepts other Unicode decimal digits, so lines that use them are headers in the script but not here.
- The regex engine itself is not modelled. `MatchLine` is a hand-written recogniser, and `HeaderFacts.MatchLineExactly` ties it to the shape the pattern describes.
- Whitespace for `str.split()` is the fixed set of characters for which Python's `str.isspace()` is true. It is written out in `Text.IsSpace` and is not derived from a Unicode database.
