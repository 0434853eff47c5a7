# Verified models of trunk-recorder's self-contained cores

This project models the parts of trunk-recorder that are small state machines and
codecs, and proves for each one that its optimised or stateful form does what a
simple specification says. `dafny verify dfyconfig.toml` checks the whole project.

* **CSV** (`lib/csv-parser/csv.hpp`). `CsvScan` is the quote-aware scanner as a
  function of its cursor state; `CsvDocument` is RFC 4180, section 2, as a grammar
  with a meaning and with what is read of it; `CsvField` and `CsvFaithful` prove that
  every document of that grammar is read so, and `CsvTrim` when that is its meaning
  trimmed; `CsvStray` reads quotes where the grammar has none; `CsvWriter` is the quoting writer and the round trip; `CsvWindow` is the
  file read through windows that begin again at the last unfinished row, `CsvEnds`
  says when that ends, `CsvParted` when it finds the same rows and `CsvFlag` which
  values the doubled-quote flag changes, with files for each in `CsvEndless`,
  `CsvParted` and `CsvStale`; `CsvParser` and `FieldLists` are the classes with their
  mutable fields, the paged list of fields and the lazily un-doubled values;
  `CsvReader` is the row reader with its queue, header, policy and iterator,
  `CsvIterate` what iterating reads again at the end, and `CsvRoundTrip` writes a table
  with one class and reads it with the other; `Json` is the escaper that computes its
  length in advance (RFC 8259, section 7) and `Numbers` the integer printer and the
  classifier.
* **P25 Phase 2 mask generator** (`lib/lfsr`). `Lfsr` holds the Fibonacci
  recurrence and the Galois register as bit vectors, `P25p2Lfsr` and `BitUtils` the
  code on six packed fields, with `Words` for the machine arithmetic.
* **UTF-8 validator** (`lib/websocketpp/utf8_validator.hpp`), against the grammar of
  RFC 3629, section 4.
* **WebSocket frames** (`lib/websocketpp/frame.hpp`). `WsHeader` builds, serialises
  and reads headers (RFC 6455, section 5.2), `WsMask` masks a word at a time and in
  chunks (section 5.3), both on words in either byte order (`Bytes`).
* **Call manager** (`trunk-recorder/main.cc`, `call_impl.cc`, `source.cc`). `Calls`
  is the transition system over calls and recorder pools, `CallsSafe` its
  invariant, `CallsTheorems` what follows for whole runs, `CallsLaws` when calls
  start, stop, duplicate and end, said in the fields of calls and systems alone, and
  `Manager` the classes and loops that carry the transitions out on objects.
* **URIs** (`lib/websocketpp/uri.hpp`): the cursor-driven parser and the printer.

Characters of the CSV library are signed 8-bit integers, as `char` is there;
unsigned words are natural numbers cut to their width where the code cuts them.
Functions that take a start outcome, a clock or a recorder's idle time get it as a
parameter.

## What the proofs found

* The writer's output is read back as the same table exactly when no row is without
  fields, no row but the first is one empty field written as nothing, and no text is
  cut at a null character (`CsvWriter.RoundTripExactly`); on a parser's first text,
  with ASCII delimiter and quote, also only if it does not begin with a byte-order mark
  (`CsvWriter.FirstRoundTripExactly`). The parser takes two line feeds as one line
  end: of `a` and a blank line only `a` comes back (`CsvWriter.BlankRowLost`).
* With minimal quoting turned off, a field that needs no quotes is written from its
  place in memory up to a null character: it is cut at one (`CsvWriter.NullCutsField`),
  and a view is written as itself exactly when it has none and one follows it
  (`CsvWriter.ViewWrittenExactly`).
* A last line that nothing ends loses its last field when that field is an empty
  pair of quotes (`CsvFaithful.ReadWholeExactly`); of a file that is two quotes
  nothing is read (`CsvFaithful.EmptyQuotesLost`).
* The loop that trims a field at its end looks at the character before the field
  exactly when the field is empty (`CsvScan.TrimStaysInside`), as it is in a text of
  trim characters alone (`CsvScan.TrimReadsBefore`); that character is inside the data.
* A format that trims reads a document as its trimmed texts exactly when no text in
  quotes ends with two or more trim characters before quotes, and something is read of
  the last field of a last line that nothing ends, unless it was written as nothing
  (`CsvTrim.TrimmedExactly`): with spaces trimmed, `"a  """` is read without its quote
  (`CsvTrim.SpacedQuoteLost`).
* Reading a file through windows ends exactly when every row, up to and with the first
  character of its line end, fits in a window (`CsvEnds.EndsExactly`), and otherwise
  reads the same window for ever, as it does with any line of letters that is one too
  long (`CsvEndless.NeverEnds`); a second character of the line end may be too many
  (`CsvEndless.EndsWithoutFitting`).
* Of a file smaller than the constant of ten million bytes, `next` reads only the first
  window, however small that is (`CsvWindow.SmallFile`).
* A byte-order mark is looked for once. If no row ends in the first window behind it,
  that window is read a second time with the mark as text, and what counts then are
  the rows of that text (`CsvEnds.EndsExactly`, `CsvEndless.MarkReadTwice`).
* Windows find the rows and fields of the file in one piece exactly when every row
  fits in a window and no window ends between the two characters of a line end
  (`CsvParted.SameRowsOnce`, `CsvParted.SameRowsExactly`); every size of window has a
  file of two rows where one does, and three are found (`CsvParted.PartedLineEnd`).
* The flag for a doubled quote is not reset between windows. On RFC 4180 documents the
  values are the same all the same (`CsvWindow.WindowsReadTrimmed`). On other files a
  value can differ, exactly when a window that is not the last ends with the flag
  set and the first field of the next has two quotes and no flag of its own
  (`CsvFlag.WindowValuesExactly`); every size of window, the constant of ten million
  bytes included, has such a file (`CsvStale.StaleFlag`).
* The header row is looked for only in the first window: it is found exactly when
  that window holds it or is the whole file (`CsvRoundTrip.HeaderFound`), and every
  size of window has a file whose second row it does not hold
  (`CsvRoundTrip.HeaderMissed`).
* An iterator hands over its first row whatever the policy for rows of another length,
  so that iterating gives what reading row after row gives exactly when there is no row
  or the first one fits (`CsvReader.IteratedExactly`). If all rows have been taken it
  reads a window even at the end of the file, which gives a last line again exactly if
  nothing ended it (`CsvIterate.ReadAgainExactly`): the names of a file that is its
  header alone are also a row of it (`CsvIterate.HeaderAlone`).
* Classifying a text reads the character after its end exactly when the text begins
  a number and its e, followed up through its exponents, is its last character with
  a point before it (`Numbers.PastEndExactly`): "1.e" does, "5e" and "apple" do not
  (`Numbers.PastEndTexts`).
* A superseding grant stops the last call that it duplicates, whichever of them it
  is preferred to: none of them records any more exactly when there is only one
  (`CallsTheorems.SupersedesAllExactly`); two calls on two channels of one site are
  a run where one goes on (`CallsTheorems.OneGoesOn`).
* A minus counts wherever it stands among the digits: "1-2" is the integer -12
  (`Numbers.MinusInside`). A port text may begin with spaces and a plus
  (`Uris.AtoiReads`, `Uris.UriTexts`).
* The JSON escaper leaves a backslash in the slot of the string's terminator exactly
  when the last character is one it writes with four hexadecimal digits
  (`Json.JsonEscapeString`).
* A URI is the same after printing and parsing exactly when its host has no colon
  and no slash and does not begin with a bracket (`Uris.ReparseExactly`,
  `Uris.TextReparsedExactly`); the host of an IPv6 address always has a colon
  (`Uris.AddressNotReparsed`, `Uris.LoopbackNotReparsed`).
* The comment on `_determine_integral_type` speaks of the absolute value: the least
  value of each integer type is therefore classified as the next larger type
  (`Numbers.SmallestType`).

## Model

| member | source | states |
|---|---|---|
| CsvScan.FlagTable | lib/csv-parser/csv.hpp:4805-4838 | clearing the two low bits of a flag inside quotes gives a quote its quote meaning and makes every other character text, for every format and character |
| CsvScan.StepKeepsInv | lib/csv-parser/csv.hpp:6983-7061 | each turn of the scanning loop moves the cursor on and keeps the current field inside the data, behind the cursor, and not beginning with a trim character |
| CsvScan.RunKeepsLayout | lib/csv-parser/csv.hpp:6954-7066 | whole runs keep all recorded fields behind the current one, in order and without overlap |
| CsvScan.ParseLayout | lib/csv-parser/csv.hpp:6931-7066 | for every input and non-overlapping format, every recorded field lies inside the data and ends at or before the start of the current row, and non-empty fields of a row are in order and disjoint |
| CsvScan.TrimStaysInside | lib/csv-parser/csv.hpp:6950-6953 | the backwards trim loop never looks outside the data, and looks before the field's start exactly when the field is empty |
| CsvScan.TrimReadsBefore | lib/csv-parser/csv.hpp:6950-6953 | at the end of every text of trim characters alone the loop looks at the character before the field |
| CsvFaithful.LineOfFields | lib/csv-parser/csv.hpp:6983-7061 | scanning a line of bare and quoted fields records one field for each, with the value that the document's reading gives it, whatever the format trims |
| CsvFaithful.Records | lib/csv-parser/csv.hpp:6983-7061 | scanning ended lines, with line ends of one or two characters, records one row for each with the values of its fields |
| CsvField.QuotedField | lib/csv-parser/csv.hpp:6931-7058 | a quoted field is recorded with its text, without leading trim characters, and with the length that the loops leave it: trailing trim characters are dropped before the quotes at its end are counted |
| CsvFaithful.DocumentTrimmed | lib/csv-parser/csv.hpp:6913-7066 | every RFC 4180 document is read as what is read of its fields, whatever the format trims, except for what end_feed loses of the last line |
| CsvTrim.FieldReadExactly | lib/csv-parser/csv.hpp:6931-6953 | what is read of a field is its trimmed text if and only if its text in quotes does not end with two or more trim characters before quotes |
| CsvTrim.TrimmedExactly | lib/csv-parser/csv.hpp:6913-7066 | a document is read as its trimmed texts if and only if that holds of every field and nothing is lost of an unended last line |
| CsvTrim.SpacedQuoteLost | lib/csv-parser/csv.hpp:6931-7058 | with spaces trimmed, a text of a letter, two spaces and a quote is read without the quote, and with one space as it is |
| CsvFaithful.DocumentRead | lib/csv-parser/csv.hpp:6913-7066 | where nothing is trimmed, every RFC 4180 document is read as the rows it means, except for what end_feed loses of the last line, whatever the doubled-quote flag was before |
| CsvFaithful.BomSkipped | lib/csv-parser/csv.hpp:7075-7086 | a byte-order mark in front of a document changes nothing, unless it is all there is and its last byte is the delimiter |
| CsvFaithful.ReadWholeExactly | lib/csv-parser/csv.hpp:6913-6929 | the whole document is read back if and only if its unended last line does not end in an empty pair of quotes |
| CsvFaithful.EmptyQuotesLost | lib/csv-parser/csv.hpp:6913-6929 | the document of one unended empty pair of quotes means one row and is read as none |
| CsvStray.BareQuotesKept | lib/csv-parser/csv.hpp:7042-7056 | a field that does not begin with a quote is read with every quote in it |
| CsvStray.LoneQuotesKept | lib/csv-parser/csv.hpp:7019-7040 | a quoted field is read with the quotes in it that a text character follows, and with its delimiters and line ends |
| CsvWriter.DelimWriter.CsvEscape | lib/csv-parser/csv.hpp:6751-6788 | a field with a quote, delimiter or newline character is written in quotes with its quotes doubled; any other as it is, or, if quoting is not minimal, in quotes and from memory up to a null character |
| CsvWriter.QuotedExactly | lib/csv-parser/csv.hpp:6751-6788 | a string is put in quotes if and only if it has a quote, a delimiter or a newline character or quoting is not minimal, and else written as it is |
| CsvWriter.ViewWrittenExactly | lib/csv-parser/csv.hpp:6768-6774 | when quoting is not minimal, a view without special characters is written as itself if and only if it has no null character and one follows it in memory |
| CsvWriter.DelimWriter.WriteRow | lib/csv-parser/csv.hpp:6704-6715 | writing a row appends exactly its fields with delimiters between them and a line feed |
| CsvWriter.RowText | lib/csv-parser/csv.hpp:6704-6788 | two rows, quoted minimally and fully, written out in characters |
| CsvWriter.ReadBack | lib/csv-parser/csv.hpp:6704-6811 | every table written is read back as the same table without the blank rows that follow a row |
| CsvWriter.RoundTripExactly | lib/csv-parser/csv.hpp:6704-6811 | quoting minimally or not, the table comes back unchanged if and only if no row is without fields, no row but the first is one empty field written as nothing, and no text is cut at a null character, when there is no byte-order mark |
| CsvWriter.BlankRowLost | lib/csv-parser/csv.hpp:7000-7011 | a row of one field and a row of one empty field are written, and only the first is read back |
| CsvWriter.NullCutsField | lib/csv-parser/csv.hpp:6768-6774 | a field with a null character, quoted without need, is read back only up to it |
| CsvWriter.FirstRoundTripExactly | lib/csv-parser/csv.hpp:7075-7086 | the same on a parser's first text with ASCII delimiter and quote: exactly when also the output does not begin with a byte-order mark |
| CsvWindow.RunMarked | lib/csv-parser/csv.hpp:6956-6980 | a doubled-quote flag set before a scan changes nothing of it but the first field it pushes |
| CsvWindow.Truncated | lib/csv-parser/csv.hpp:6983-7066 | scanning a text up to a cut records the rows that scanning on would, and scanning again from the last row begun there gives the rest |
| CsvWindow.Moved | lib/csv-parser/csv.hpp:6983-7066 | scanning what is left of a file gives, moved to its place, what scanning the whole file goes on to give |
| CsvWindow.WindowProgress | lib/csv-parser/csv.hpp:7094-7122 | if every row fits in a window, a window that is not the last finishes a row |
| CsvWindow.UnreadShrinks | lib/csv-parser/csv.hpp:7094-7122 | the unread size strictly decreases with every window but the last |
| CsvWindow.WindowsFindTheSame | lib/csv-parser/csv.hpp:7094-7122 | for every file whose rows fit, with no window ending between the two characters of a line end, reading through windows ends and finds the same rows and fields at the same places as reading in one piece |
| CsvWindow.NextValues | lib/csv-parser/csv.hpp:7094-7122 | the values that windows deliver are those of the rows at their places in the whole file |
| CsvWindow.SmallFile | lib/csv-parser/csv.hpp:7094-7122 | of a file smaller than the constant only the first window is read, as a text of its own |
| CsvEnds.LineEndsAre | lib/csv-parser/csv.hpp:6999-7012 | every row that a scan records ends with a line end of one or two newline characters, the first of them at the place listed for it |
| CsvEnds.EndsExactly | lib/csv-parser/csv.hpp:7075-7122 | for every file, reading through windows ends if and only if every row of the one piece, up to and with the first character of its line end, fits in a window; a byte-order mark counts as text if no row ends in the first window behind it |
| CsvEnds.EndsUnparted | lib/csv-parser/csv.hpp:7094-7122 | with no window ending between the two characters of a line end, reading ends without reading the first window twice if and only if every row fits in a window |
| CsvEnds.FitAndReach | lib/csv-parser/csv.hpp:6999-7012 | rows that fit reach, and rows that reach are at most one character too long |
| CsvEndless.NeverEnds | lib/csv-parser/csv.hpp:7094-7122 | for every window of three bytes or more, a line of one letter more is never read |
| CsvEndless.EndsWithoutFitting | lib/csv-parser/csv.hpp:7094-7122 | for every window of three bytes or more, a line that is too long by the second character of its line end is read |
| CsvEndless.MarkReadTwice | lib/csv-parser/csv.hpp:7075-7122 | for every window of five bytes or more there is a file that is only read because its byte-order mark is taken for text the second time, and of which other rows are found |
| CsvParted.SameRowsOnce | lib/csv-parser/csv.hpp:6999-7012 | for every file and format, reading through windows ends, reads no window twice and finds the rows and fields of the one piece at the same places if and only if every row fits in a window and no window ends between the two characters of a line end |
| CsvParted.SameRowsExactly | lib/csv-parser/csv.hpp:6999-7086 | where the first byte of a byte-order mark read twice has no part in the format, it ends with those rows if and only if that holds |
| CsvParted.ReadTwiceDiffers | lib/csv-parser/csv.hpp:7075-7086 | a byte-order mark read a second time, as text, begins a field that the one piece does not have |
| CsvParted.PartedLineEnd | lib/csv-parser/csv.hpp:6999-7012 | for every window of three bytes or more there is a file of two rows that fit, of which reading ends with three rows |
| CsvFlag.UndoubleSame | lib/csv-parser/csv.hpp:7694-7711 | un-doubling leaves a raw field as it is exactly when it has at most one quote |
| CsvFlag.WindowValuesExactly | lib/csv-parser/csv.hpp:7094-7122 | for any file, such windows deliver the values of the one piece if and only if, wherever a window that is not the last ends with the flag set, the first field of the next has the flag in a scan without it or at most one quote: a condition on text and window size alone |
| CsvStale.StaleFlag | lib/csv-parser/csv.hpp:7094-7098 | for every window of 11 bytes or more there is a file of one byte more that meets the conditions on windows and is delivered differently, because the doubled-quote flag is not reset |
| CsvWindow.WindowsReadTrimmed | lib/csv-parser/csv.hpp:7075-7122 | an RFC 4180 document, with a byte-order mark in front or not, read through such windows gives what the one piece reads of its lines, whatever the format trims |
| CsvWindow.WindowsReadDocuments | lib/csv-parser/csv.hpp:7075-7122 | where nothing is trimmed, an RFC 4180 document, with a byte-order mark in front or not, read through such windows gives the values of its lines |
| FieldLists.FieldList.EmplaceBack | lib/csv-parser/csv.hpp:5473-5480 | appends one field to the contents and keeps the pages consistent, allocating when the page is full |
| FieldLists.FieldList.Size | lib/csv-parser/csv.hpp:5482-5484 | page count and fill level give the number of fields |
| FieldLists.FieldList.Get | lib/csv-parser/csv.hpp:7629-7633 | page number and offset find the n-th field of the contents |
| FieldLists.FlatAt | lib/csv-parser/csv.hpp:7629-7633 | the element at an offset of a full page stands at page times size plus offset of the whole |
| CsvParser.MakeParseFlags | lib/csv-parser/csv.hpp:5854-5879 | the 256-entry table holds the flag of every signed char, the quote's entry winning over the others |
| CsvParser.MakeWsFlags | lib/csv-parser/csv.hpp:5885-5900 | the table holds exactly the trim characters |
| CsvParser.RawData.GetField | lib/csv-parser/csv.hpp:7683-7717 | gives the field's value, un-doubled if flagged, at the first call and from the cache after it; an index past the row is an error |
| CsvParser.RowTexts | lib/csv-parser/csv.hpp:7675-7681 | the conversion of a row gives the values of its fields in order, by get_field |
| CsvParser.Undoubled | lib/csv-parser/csv.hpp:7697-7710 | the loop drops every second quote, remembering one across other characters |
| CsvParser.Parser.PushField | lib/csv-parser/csv.hpp:6956-6980 | the new state is the old one with one more field, and the flag and field state reset |
| CsvParser.Parser.PushRow | lib/csv-parser/csv.hpp:7063-7066 | adds the current row with the fields pushed since it began |
| CsvParser.Parser.ParseField | lib/csv-parser/csv.hpp:6931-6953 | the three loops skip, pass and trim as the state function says, the cast of the field's start to a 32-bit integer included |
| Words.CastExact | lib/csv-parser/csv.hpp:6939-6940 | that cast changes a size exactly from 2^31 on |
| CsvParser.Parser.Turn | lib/csv-parser/csv.hpp:6994-7058 | one turn of the loop is one step of the state function, early return included |
| CsvParser.Parser.Parse | lib/csv-parser/csv.hpp:6983-7061 | a chunk is parsed to the state the step function reaches, and the start of the unfinished row is returned |
| CsvParser.Parser.EndFeed | lib/csv-parser/csv.hpp:6913-6929 | pushes what is left as the specification says |
| CsvParser.Parser.ParseChunk | lib/csv-parser/csv.hpp:7103-7119 | the rows of a chunk, each with its own fields and those inside the chunk, are ready for get_field and have the values that the scan found |
| CsvParser.MmapParser.Next | lib/csv-parser/csv.hpp:7094-7122 | one window is one step of the windowed reader; the rows delivered before keep their values, and those added have the new ones |
| CsvParser.MmapParser.TextsAt | lib/csv-parser/csv.hpp:7675-7717 | the strings of any delivered row are its values, and reading them changes no other row's |
| CsvParser.MmapParser.ReadToEnd | lib/csv-parser/csv.hpp:7094-7122 | calling next with one size of window until the end of the file gives the windowed reader's result |
| CsvReader.CsvReader.constructor | lib/csv-parser/csv.hpp:7401-7418 | for every file, the first window is read, the header taken from it, and all rows that reading on comes to remain to be read |
| CsvReader.CsvReader.TrimHeader | lib/csv-parser/csv.hpp:7453-7475 | the loop takes the rows up to the header's off the queue, and the names from that row if none were given |
| CsvReader.CsvReader.ReadRow | lib/csv-parser/csv.hpp:7519-7556 | the next answer is the first remaining row that is not passed over; only IGNORE_ROW passes rows over, and only those whose length is not the number of columns; the row is delivered if it has the length or the policy is KEEP, and under THROW refused as too short or too long; or no row was left; what remains are the rows after it; it is answered for every reader except one that would read the same window for ever |
| CsvReader.ReadTable | lib/csv-parser/csv.hpp:7519-7556 | reading row after row gives the strings of exactly the rows that the policy delivers before it refuses one |
| CsvReader.NextDelivered | lib/csv-parser/csv.hpp:7519-7556 | what is delivered in all begins with the row of the next answer, and is nothing if that refuses or ends |
| CsvReader.KeepDelivers | lib/csv-parser/csv.hpp:7536-7545 | under KEEP every row is delivered |
| CsvReader.IgnoreDelivers | lib/csv-parser/csv.hpp:7536-7545 | under IGNORE_ROW exactly the rows with as many fields as columns are delivered, in their order, and none is refused |
| CsvReader.ThrowDelivers | lib/csv-parser/csv.hpp:7536-7545 | under THROW the rows before the first of another length are delivered, and that is refused |
| CsvReader.AllDelivered | lib/csv-parser/csv.hpp:7536-7545 | all rows are delivered if and only if the policy is KEEP or every row has as many fields as columns |
| CsvReader.CsvReader.Begin | lib/csv-parser/csv.hpp:7565-7577 | the first row of the queue is taken unseen, after one window more if the queue is empty |
| CsvReader.IterateTable | lib/csv-parser/csv.hpp:7565-7607 | iterating gives the strings of the first row whatever the policy, and then of the rows that the policy delivers |
| CsvReader.IteratedExactly | lib/csv-parser/csv.hpp:7565-7607 | that is what reading row after row gives if and only if there is no row or the first fits |
| CsvReader.ReachedIsAll | lib/csv-parser/csv.hpp:7519-7533 | reading window after window comes to the end of the file exactly where the windowed reader does |
| CsvIterate.ReadAgainExactly | lib/csv-parser/csv.hpp:7565-7572 | one more window at the end of the file gives a row if and only if end_feed recorded a last line that nothing ended |
| CsvIterate.HeaderAlone | lib/csv-parser/csv.hpp:7565-7572 | for a file of one line with no line end, the column names are iterated over as a row |
| CsvReader.HeaderExactly | lib/csv-parser/csv.hpp:7453-7466 | the header in the first window's rows is that in all rows if and only if it is within the first window's, or those are all |
| CsvRoundTrip.HeaderFound | lib/csv-parser/csv.hpp:7453-7500 | the same of the file read through windows; the first row as header is always found |
| CsvRoundTrip.HeaderMissed | lib/csv-parser/csv.hpp:7453-7500 | for every window of 11 bytes or more there is a file whose second row is not found as header |
| CsvRoundTrip.WrittenValues | lib/csv-parser/csv.hpp:6704-6811 | every table of which writing loses nothing is read back through such windows |
| CsvRoundTrip.WriteAndRead | lib/csv-parser/csv.hpp:7453-7556 | writer, windows, row queue, header and field values composed: column names, given or in whichever row of the first window, and the rows after it come back as they were written, for every policy |
| Json.JsonExtraSpace | lib/csv-parser/csv.hpp:7927-7964 | the extra space is exactly what escaping adds |
| Json.WriteOne | lib/csv-parser/csv.hpp:7978-8062 | one character is written as its escape, the backslash that was there already included, and nothing else changes but a slot after four digits |
| Json.JsonEscapeString | lib/csv-parser/csv.hpp:7966-8066 | the result is the escaped text, of exactly the computed length; the terminator's slot holds a backslash exactly when the last character was written with four digits |
| Json.EscapeReadsBack | lib/csv-parser/csv.hpp:7966-8066 | un-escaping by RFC 8259, section 7, surrogate pairs included, what was escaped gives the text back, for every text |
| Json.EscapesAre | lib/csv-parser/csv.hpp:7978-8062 | the escape of every character, in characters |
| Json.EscapeShortest | lib/csv-parser/csv.hpp:7966-8066 | no well-formed JSON string that stands for the text, whatever escapes it uses, is shorter than the escaped text |
| Numbers.UnsignedToString | lib/csv-parser/csv.hpp:6536-6549 | prints the decimal digits |
| Numbers.NoLeadingZero | lib/csv-parser/csv.hpp:6536-6549 | printed digits begin with no superfluous zero |
| Numbers.SignedToString | lib/csv-parser/csv.hpp:6551-6561 | prints a sign and the magnitude, for every value whose magnitude is representable |
| Numbers.DataTypeOf | lib/csv-parser/csv.hpp:5298-5402 | for every text whose end the code respects, the loop and its recursion on an exponent classify as the scanner function does, with the value stored |
| Numbers.PastEndExactly | lib/csv-parser/csv.hpp:5339-5357 | the character after the end is asked for if and only if the text begins a number up to an e, which is either last with a point before it or begins an exponent that is such a text |
| Numbers.PastEndTexts | lib/csv-parser/csv.hpp:5339-5357 | "1.e" is such a text; "apple", "5e" and "TE" are not |
| Numbers.PrintedIsClassified | lib/csv-parser/csv.hpp:5298-5402 | a printed integer, with any padding of spaces, is classified with its own value and the type of its magnitude |
| Numbers.PlainExactly | lib/csv-parser/csv.hpp:5298-5402 | a text without an e is a string unless it begins a number (spaces, digits, one minus and one point at most, in the order the loop allows), and null if it has no digit; else its value, times ten for every digit after the point, is what all its digits write, with the sign, and it is a double if it has a point and otherwise of the type of its magnitude |
| Numbers.ScaledExactly | lib/csv-parser/csv.hpp:5339-5363 | a text with an e is the number before it times ten to the power of the integer after it, if there is a point or a digit before the e; else a string |
| Numbers.NumberTexts | lib/csv-parser/csv.hpp:5298-5402 | "1.5" is 3/2, "-2.5e3" is -2500 and "1e-2" is 1/100 |
| Numbers.PlusSkipped | lib/csv-parser/csv.hpp:5339-5357 | "1E+2" is 100 |
| Numbers.StringTexts | lib/csv-parser/csv.hpp:5310-5402 | "1 2", "1.2.3" and "--1" are strings |
| Numbers.MinusInside | lib/csv-parser/csv.hpp:5323-5331 | "1-2" is the integer -12 |
| Numbers.SmallestType | lib/csv-parser/csv.hpp:5269-5284 | that type is the smallest integer type that holds the magnitude, and a double exactly when none does |
| Lfsr.GaloisRefinesFibonacci | lib/lfsr/lfsr.cxx:22-74 | for every seed and without bound, the bits shifted out of the register that the matrix product loads are the seed's 44 bits and then the XOR of the bits 4, 9, 15, 20, 34 and 44 places earlier |
| Lfsr.FirstOutputs | lib/lfsr/lfsr.cxx:22-33 | the matrix undoes the feedback of the first 44 steps, so that the seed comes out first |
| Lfsr.OutRecurrence | lib/lfsr/lfsr.cxx:66-69 | the Galois register's output obeys the Fibonacci recurrence |
| Lfsr.NeverZero | lib/lfsr/lfsr.cxx:100-128 | a register that is not zero never becomes zero |
| Lfsr.RunLinear | lib/lfsr/lfsr.cxx:100-128 | any number of steps distributes over XOR |
| Lfsr.StepBijective | lib/lfsr/lfsr.cxx:100-128 | a step can be undone, from either side |
| Lfsr.MaskUnique | lib/lfsr/lfsr.cxx:55-74 | the low 44 bits of the seed determine every bit of the mask |
| Lfsr.MaskInjective | lib/lfsr/lfsr.cxx:55-74 | seeds with the same first 44 mask bits agree in their low 44 bits |
| Lfsr.MaskLinear | lib/lfsr/lfsr.cxx:55-74 | the mask of the XOR of two seeds is the XOR of their masks |
| P25p2Lfsr.DisasmReg | lib/lfsr/lfsr.cxx:87-98 | gives the six fields of a register |
| P25p2Lfsr.FieldBits | lib/lfsr/lfsr.cxx:87-98 | the six fields hold the 44 bits in order |
| P25p2Lfsr.AsmReg | lib/lfsr/lfsr.cxx:77-85 | puts six fields, cut to their widths, together into the register that has their bits |
| P25p2Lfsr.CycReg | lib/lfsr/lfsr.cxx:100-128 | on every 64-bit number, taking apart, shifting with carries and putting together is a 44-bit shift with a conditional XOR |
| P25p2Lfsr.CycInjective | lib/lfsr/lfsr.cxx:100-128 | the step is one to one on 44-bit registers, and only zero steps to zero |
| P25p2Lfsr.CycOnto | lib/lfsr/lfsr.cxx:100-128 | every 44-bit register is a step of one |
| P25p2Lfsr.CycLinear | lib/lfsr/lfsr.cxx:100-128 | stepping an XOR gives the XOR of the steps |
| P25p2Lfsr.Generator.InitMatrix | lib/lfsr/lfsr.cxx:22-33 | fills M with ones on the diagonal and 4, 9, 15, 20 and 34 to its right |
| P25p2Lfsr.Generator.TimesMatrix | lib/lfsr/lfsr.cxx:60 | the row vector times M |
| P25p2Lfsr.Generator.MkXorBits | lib/lfsr/lfsr.cxx:55-74 | the 4320 bits are the mask of the seed; for identifiers of 20, 12 and 12 bits the first 44 are those of WACN, system and NAC, and every later bit is the parity of those 4, 9, 15, 20, 34 and 44 places before it |
| P25p2Lfsr.Generator.PackSymbols | lib/lfsr/lfsr.cxx:38-42 | packs consecutive bits two to a symbol, first bit high |
| P25p2Lfsr.Generator.constructor | lib/lfsr/lfsr.cxx:18-45 | the first 22 symbols pair up the bits of WACN, system and NAC, first bit high; unpacked, all 2160 are the mask of that seed and recur |
| P25p2Lfsr.SeedBits | lib/lfsr/lfsr.cxx:57 | the seed has the bits of WACN, system and NAC one after another |
| P25p2Lfsr.MaskRecurs | lib/lfsr/lfsr.cxx:62-70 | a mask begins with the bits of its seed, and every later bit is the parity of six bits before it |
| BitUtils.MkArray | lib/lfsr/bit_utils.h:56-64 | the low bits of a number, most significant first |
| BitUtils.MkInt | lib/lfsr/bit_utils.h:66-73 | the number whose digits are the parities of a vector, cut to 64 bits |
| BitUtils.ValOfBits | lib/lfsr/bit_utils.h:56-73 | the number of the bits of a number is its low part |
| BitUtils.BitsOfVal | lib/lfsr/bit_utils.h:56-73 | the bits of the number of a vector are its parities |
| Utf8.TableIsAutomaton | lib/websocketpp/utf8_validator.hpp:45-60 | the 400-entry table is exactly the byte classes and the automaton of the grammar |
| Utf8.DecodeByte | lib/websocketpp/utf8_validator.hpp:69-78 | one look-up is one step of automaton and code point |
| Utf8.AcceptsRest | lib/websocketpp/utf8_validator.hpp:69-78 | from every state the automaton accepts exactly what the grammar lets follow there |
| Utf8.Validator.Consume | lib/websocketpp/utf8_validator.hpp:91-96 | takes one step, and answers whether the input is still possible |
| Utf8.Validator.Decode | lib/websocketpp/utf8_validator.hpp:104-118 | reaches the state of the whole piece, early return included, and holds the last code point |
| Utf8.Validate | lib/websocketpp/utf8_validator.hpp:143-149 | accepts exactly the concatenations of the well-formed sequences of RFC 3629, section 4 |
| Utf8.StreamingAgrees | lib/websocketpp/utf8_validator.hpp:104-126 | validating in pieces answers as validating the whole does |
| Utf8.CodesEncodeBack | lib/websocketpp/utf8_validator.hpp:69-78 | the code points produced at the accepting steps encode to the same bytes again |
| Utf8.EncodingDecodes | lib/websocketpp/utf8_validator.hpp:69-78 | every sequence of scalar values, encoded, is accepted and produces those values |
| Utf8.LastCodeHeld | lib/websocketpp/utf8_validator.hpp:104-118 | at an accepting step the register holds the code point just produced |
| WsHeader.BasicHeader.constructor | lib/websocketpp/frame.hpp:194-228 | the first byte is 128, 64, 32 and 16 for the flags and the opcode; the second 128 for the mask flag and the size up to 125, 126 up to 65535 and 127 above |
| WsHeader.FirstByteIs | lib/websocketpp/frame.hpp:194-210 | the bits ORed together are the sum of their values |
| WsHeader.SecondByteIs | lib/websocketpp/frame.hpp:212-228 | so with mask flag and size code, 126 and 127 being the codes for two and eight size bytes |
| WsHeader.FirstByteReadsBack | lib/websocketpp/frame.hpp:321-400 | opcode and the four flags are read back from the first byte |
| WsHeader.SecondByteReadsBack | lib/websocketpp/frame.hpp:402-433 | mask flag and size code are read back from the second byte |
| WsHeader.BasicHeader.SetFirstFlag | lib/websocketpp/frame.hpp:330-391 | sets one flag of the first byte and changes no other bit |
| WsHeader.BasicHeader.SetMasked | lib/websocketpp/frame.hpp:411-413 | sets the mask flag and changes no other bit |
| WsHeader.HeaderLength | lib/websocketpp/frame.hpp:445-480 | the header length is that of the shortest length form and the key, and at most 14 |
| WsHeader.HeaderRoundTrip | lib/websocketpp/frame.hpp:516-585 | payload size and key are read back from the extension, whose length is the header length less two, for every size |
| WsHeader.ExtendedHeader.WithKey | lib/websocketpp/frame.hpp:246-258 | the extension holds the size in network order and then the key |
| WsHeader.PrepareHeader | lib/websocketpp/frame.hpp:489-502 | the wire form has the header length |
| WsHeader.WireIs | lib/websocketpp/frame.hpp:194-502 | the two bytes and the extension are the header of RFC 6455, section 5.2, byte by byte |
| WsHeader.BuildAndRead | lib/websocketpp/frame.hpp:194-585 | building and serialising gives, for every size, the bytes that RFC 6455, section 5.2, numbers, with size and key as sums of powers of 256, and reading back gives opcode, flags, size and key |
| WsMask.PreparedHolds | lib/websocketpp/frame.hpp:595-602 | the prepared key holds the key's bytes as often as they fit, for both word sizes and byte orders |
| WsMask.CircshiftHolds | lib/websocketpp/frame.hpp:612-623 | a shifted prepared key is the prepared key further on in the pattern |
| WsMask.ByteMask | lib/websocketpp/frame.hpp:644-655 | byte i becomes its XOR with byte (i + offset) mod 4 of the key, and the rest of the buffer is unchanged |
| WsMask.WordMaskExact | lib/websocketpp/frame.hpp:702-717 | masking by words and a tail equals masking by bytes |
| WsMask.WordMaskCirc | lib/websocketpp/frame.hpp:768-789 | the same from a prepared key, which is returned shifted by what is left over of a word |
| WsMask.ByteMaskCirc | lib/websocketpp/frame.hpp:830-841 | the same byte by byte |
| WsMask.MaskIsRfc | lib/websocketpp/frame.hpp:644-655 | the mask is that of RFC 6455, section 5.3 |
| WsMask.MaskTwice | lib/websocketpp/frame.hpp:644-655 | masking twice restores the payload |
| WsMask.StreamingMask | lib/websocketpp/frame.hpp:768-841 | any split into chunks, each masked by words or by bytes with the returned key passed on, gives the mask of the whole |
| WsMask.StreamingFromStart | lib/websocketpp/frame.hpp:595-841 | the same from a freshly prepared key |
| CallsTheorems.ConcludedExactlyOnce | trunk-recorder/main.cc:364-618 | over every run a deleted call was concluded exactly once if it ever recorded and never if not, a listed one only if superseded, and every call made is listed or deleted |
| CallsTheorems.ShutDownConcludesAll | trunk-recorder/main.cc:871-882 | after shutdown no call is left and every call that ever recorded was concluded exactly once |
| CallsTheorems.RecordersHeld | trunk-recorder/main.cc:168-258 | in every reachable state a recording call holds a recorder that is not available, no two hold the same one, and no two calls have the same talkgroup, system, frequency, slot and TDMA flag |
| CallsTheorems.RecordersConserved | trunk-recorder/source.cc:384-409 | in every reachable state and every pool, free recorders and recording calls make up the pool the source began with |
| CallsTheorems.GrantsRecording | trunk-recorder/main.cc:485-618 | a duplicate grant does not raise the number of recording calls and a superseding one leaves it unchanged whether or not its recorder starts |
| CallsTheorems.SupersedesAllExactly | trunk-recorder/main.cc:485-601 | after a superseding grant started, none of the calls it duplicates records if and only if it duplicates only one |
| CallsTheorems.OneGoesOn | trunk-recorder/main.cc:485-601 | a run of three grants after which a call that the superseding grant duplicates still records |
| CallsTheorems.EffectivePriorityIsLeast | trunk-recorder/main.cc:177-187 | the effective priority is the least priority of the talkgroup and the listed talkgroups patched with it |
| CallsTheorems.PriorityReserve | trunk-recorder/source.cc:159-244 | a call of effective priority p that starts takes one recorder of the first covering source and leaves at least p - 1 free in its pool |
| CallsTheorems.ManageLeavesSurvivors | trunk-recorder/main.cc:364-414 | erasing while iterating leaves exactly the calls that have not timed out, in order |
| CallsTheorems.LastBranchUnreachable | trunk-recorder/main.cc:403-407 | for a fixed clock the last branch of the loop is never taken |
| CallsLaws.StartsExactly | trunk-recorder/main.cc:132-268 | a recorder starts if and only if neither the call nor its talkgroup is marked encrypted, the talkgroup is listed or unknown ones are recorded, a source covers the frequency, as many recorders of the first one and of the pool that mode A or the default selects are free as the priority says and at least one, the priority is not -1, and the recorder does start |
| CallsLaws.RefusedExactly | trunk-recorder/main.cc:132-268 | a new call that is not recorded monitors, each of the five reasons being given if and only if its condition holds, and nothing else changes |
| CallsLaws.TakesFirstFree | trunk-recorder/source.cc:159-244 | a call that starts has the first free recorder of its pool in the first covering source, and no other recorder changes |
| CallsLaws.NoEncryptedRecording | trunk-recorder/main.cc:155-166 | in every reachable state no recording call is encrypted |
| CallsLaws.GrantStops | trunk-recorder/main.cc:488-601 | an unknown grant changes no call on the list but the last one of its talkgroup that records at another site of its network, and that only if a site of those calls is preferred less than its own and its new call records |
| CallsLaws.StoppedIs | trunk-recorder/main.cc:488-601 | a call that an unknown grant changes recorded the talkgroup at another system, both multi-site with one WACN and of one name, or of none and at another RFSS and site; and the new call records |
| CallsLaws.GrantEnters | trunk-recorder/main.cc:568-612 | the new call has the message's key, source and time; it is a duplicate if such a call records and its own site is not preferred, and else starts if it can |
| CallsLaws.AgreedNumber | trunk-recorder/main.cc:522-543 | of sites of one name that prefer number p, a grant stops the last call heard if and only if it is at number p, a call was heard at another number and its own records; else it is a duplicate |
| CallsLaws.AgreedSite | trunk-recorder/main.cc:499-520 | the same of sites without a name by NAC, or by RFSS and site |
| CallsLaws.PreferredNumberWins | trunk-recorder/main.cc:522-601 | of two sites with numbers 1 and 2, 2 preferred, the grant at 2 stops the call at 1, and the grant at 1 is a duplicate of the call at 2 |
| CallsLaws.KnownRenews | trunk-recorder/call_impl.cc:313-344 | a grant or an update that is for a call renews the time, and the source unless it is -1, of the calls with its key and changes nothing else |
| CallsLaws.OverdueGoExactly | trunk-recorder/main.cc:364-414 | in every reachable state a management pass takes a call off the list if and only if it was not updated within the timeout and, if it records, its recorder did not write within it; the others stay as they are |
| CallsLaws.RenewedSurvives | trunk-recorder/main.cc:364-414 | a call that a grant or an update is for survives every pass up to the timeout after it |
| CallsSafe.StepKeeps | trunk-recorder/main.cc:364-650 | every event keeps the invariant: recorders held and not shared, pools complete, keys distinct, histories right |
| CallsSafe.SupersededKeeps | trunk-recorder/call_impl.cc:115-143 | superseding a recording call keeps the invariant and lowers the number of recording calls by one |
| CallsSafe.RemoveKeeps | trunk-recorder/main.cc:378-403 | taking a call off the list keeps the invariant, its recorder returned if it recorded |
| CallsSafe.RunKeeps | trunk-recorder/main.cc:858-947 | every run of events keeps the invariant |
| Manager.Call.constructor | trunk-recorder/call_impl.cc:60-93 | a new call monitors, has no recorder, and has the message's key and source |
| Manager.Call.Update | trunk-recorder/call_impl.cc:313-344 | an update renews the time and the source of a call it matches |
| Manager.Call.Conclude | trunk-recorder/call_impl.cc:115-143 | stops the recorder and hands the call over exactly if it records or was superseded |
| Manager.Source.CreateRecorders | trunk-recorder/source.cc:149-202 | fills a pool with the given number of available recorders |
| Manager.Source.GetNumAvailable | trunk-recorder/source.cc:384-409 | counts the available recorders of a pool |
| Manager.Source.GetRecorder | trunk-recorder/source.cc:159-244 | refuses by priority or gives the first available recorder, as the choice function says |
| Manager.Manager.GetPriority | trunk-recorder/main.cc:177-187 | the loop over patched talkgroups computes the effective priority |
| Manager.Manager.GetTalkgroupPatch | trunk-recorder/systems/system_impl.cc:534-546 | collects the talkgroups of every patch that has the given one |
| Manager.Manager.StartRecorder | trunk-recorder/main.cc:132-268 | changes the call and the recorders as the specification of a start says |
| Manager.Manager.ScanCalls | trunk-recorder/main.cc:485-566 | the loop updates every matching call and finds whether the grant is known, duplicated or superseding, and by which call |
| Manager.Manager.Judge | trunk-recorder/main.cc:488-543 | the nested conditions decide whether a call of the talkgroup records at another site of the network, and whether that site is preferred less, by number for sites of one name and else by NAC or by RFSS and site |
| Manager.Manager.HandleCallGrant | trunk-recorder/main.cc:458-618 | a grant takes the whole state of the objects where the transition system goes, and keeps the invariant |
| Manager.Manager.HandleCallUpdate | trunk-recorder/main.cc:621-650 | so does an update |
| Manager.Manager.ManageCalls | trunk-recorder/main.cc:364-414 | so does a management pass |
| Manager.Manager.ShutDown | trunk-recorder/main.cc:871-882 | so does the shutdown loop, which leaves no call |
| Recorders.CountUpdate | trunk-recorder/source.cc:384-409 | taking or returning a recorder changes the count of its pool by one |
| Uris.UriObject.constructor | lib/websocketpp/uri.hpp:51-168 | the cursor-driven constructor accepts and splits exactly as the specification does |
| Uris.UriObject.ReadParts | lib/websocketpp/uri.hpp:80-156 | the state loops find host, port text and resource |
| Uris.UriObject.SetPort | lib/websocketpp/uri.hpp:321-341 | an empty port is the default, and a port outside 1 to 65535 an error |
| Uris.UriObject.ToString | lib/websocketpp/uri.hpp:274-285 | prints the port only if it is not the default |
| Uris.ParsesAs | lib/websocketpp/uri.hpp:51-168 | a scheme, a host, in brackets or not, a port or none and a path or none, written one after another, are a valid URI with those parts if and only if the port is from 1 to 65535, empty or none; without one it is 80 for ws and http and 443 for wss and https |
| Uris.ValidHasForm | lib/websocketpp/uri.hpp:51-168 | every valid text is of that form |
| Uris.PortExactly | lib/websocketpp/uri.hpp:321-341 | a port text stands for its number from 1 to 65535, and for none else; an empty one for 443 if secure and else 80 |
| Uris.AtoiReads | lib/websocketpp/uri.hpp:331 | what is read of a port text: spaces, a sign or none, and digits, up to another character |
| Uris.UriTexts | lib/websocketpp/uri.hpp:51-168 | texts with default ports, a port with a sign behind an address in brackets, a port too large, nothing behind the scheme, and another scheme |
| Uris.PrintedAs | lib/websocketpp/uri.hpp:274-285 | the printed text is scheme, host and resource, with the digits of the port between if and only if that is not 80, or 443 if secure |
| Uris.ReparseExactly | lib/websocketpp/uri.hpp:51-168 | a valid URI printed and parsed again is the same if and only if its host has no colon and no slash and does not begin with a bracket |
| Uris.TextReparsedExactly | lib/websocketpp/uri.hpp:51-168 | the same from the text: every valid text is the same URI after parsing, printing and parsing if and only if its host is such |
| Uris.AddressNotReparsed | lib/websocketpp/uri.hpp:51-168 | no valid text whose host has a colon is the same URI after parsing, printing and parsing |
| Uris.AddressParses | lib/websocketpp/uri.hpp:80-130 | every address in brackets without a closing bracket in it is the host of a valid text |
| Uris.LoopbackNotReparsed | lib/websocketpp/uri.hpp:51-168 | so "ws://[::1]/" |
| Uris.RoundTrip | lib/websocketpp/uri.hpp:51-168 | for every valid URI text without a bracketed host, parsing, printing and parsing again gives the same scheme, host, port, resource and security flag |

## Left out

- GNU Radio, SDR drivers, audio and recorder internals: only the contract of `start` and `stop` is used.
- Debug and SigMF recorders, conventional calls, plugins, logging and status output: they add state without harder claims.
- Control messages other than grants and updates: they do not touch calls or recorders; systems and patches may change arbitrarily between events of a run.
- Recorder contract: a failed start changes nothing and only `stop` makes a recorder available again; whether a start succeeds is a parameter of the event.
- Systems in `Manager` are values looked up by number, and the number in a message is that of the system it came in on.
- Frequencies are real numbers that are only compared.
- Memory mapping, threads, conditions and delimiter guessing of the CSV library: a file is a sequence of characters, read by one worker at a time.
- StreamParser: its chunking keeps the field state between chunks.
- CsvParser.Parser.StartChunk, CsvParser.Parser.ParseChunk, CsvParser.MmapParser.Next: chunks are shorter than 2^31 characters; the library's are of ten million at most.
- CsvReader.CsvReader.ReadRow: the text of the exception for a refused row is not modelled, and the worker that reads a window has finished when the next row is asked for.
- CsvReader.ReadTable, CsvReader.IterateTable: like ReadRow they require what makes the calls return: that reading ends or a row is refused first.
- CsvReader.CsvReader.Begin: a window of no characters at the end of a file is parsed as such; whether the system maps it is not modelled.
- CsvWindow.WindowsFindTheSame: excludes windows of fewer than three bytes, which cannot hold a byte-order mark.
- CsvParted.SameRowsExactly: if the first window is read twice, requires that the first byte of the byte-order mark, 0xEF, is neither delimiter, quote nor trimmed.
- CsvIterate.ReadAgainExactly: excludes a file whose only line is unended behind a byte-order mark, which is read again with the mark as text.
- CsvField.QuotedField, CsvFaithful.DocumentTrimmed, CsvTrim.TrimmedExactly: formats that trim newline characters are excluded, as their line ends are not only line ends.
- CsvFaithful.DocumentRead, CsvWriter.RoundTripExactly, CsvRoundTrip.WriteAndRead: formats that trim nothing; CsvFaithful.DocumentTrimmed and CsvTrim.TrimmedExactly are for the others.
- CsvFlag.WindowValuesExactly: requires that the rows found are the same; where they are not, values may still coincide.
- Numbers.DataTypeOf: requires a text whose end the code respects, as the character after it is not the text's, and takes long double as exact.
- Floating-point printing: its rounding is the point, and the model has none.
- Uris.UriObject.constructor: requires port text in the range of int, outside of which `atoi` is undefined.
- The other URI constructors and getters, which only copy fields.
