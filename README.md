# Contact ingestion and dispatch of a WhatsApp bulk sender, in Dafny

The program reads a CSV file of contacts with the columns `phone` and `message`.
It normalises every phone number and opens WhatsApp Web in a browser. Then,
row by row, it navigates to a deep link that opens the chat with the message
already filled in, and sends it. This project models the part of `index.js`
that has real logic, and proves properties of that model:

- `Text` (`text.dfy`): the string operations the program leans on. These are
  JavaScript's `\d`, `String.prototype.trim` with its exact white-space set,
  ASCII `toLowerCase`, and `split` on one character together with its inverse,
  `join`.
- `Phone` (`phone.dfy`): `normalizePhone` as a pure function of the raw text
  and the country code `cc`. In the source, `cc` is the constant
  `DEFAULT_COUNTRY_CODE` (set to `''`).
- `CsvLine` (`csv_line.dfy`): `splitCSVLine`. The method `SplitCSVLine` is the
  source's character loop, with `cur`, `inQuotes` and `out`. It is proved equal
  to the recursive specification `Fields`, and the quoting properties are
  proved about `Fields`.
- `CsvDocument` (`csv_document.dfy`): `parseCSV`. The steps are:
  - remove one byte-order mark;
  - cut the text at `\r?\n`;
  - drop the blank lines;
  - read the header, trimmed and lower-cased, and find `phone` and `message`
    with `indexOf`;
  - read every later line into a contact, where a missing column reads as `''`.

  The method `ParseCSV` (with its loop in `ReadRows`) is proved equal to the
  function `Parse`. A header without `phone` or without `message` is the error
  `MissingHeaders`.
- `Dispatch` (`dispatch.dfy`): `sendOne` and the loop in `main`.
  - A row whose normalised phone is empty is `Skipped` and opens nothing.
  - Every other row opens exactly its deep link once. It is `Sent` or
    `Failed(message)`, as the page's attempt went.
  - The browser is a function from the addresses already opened and the
    address now opened to the outcome of that attempt.
  - `DispatchAll` is the indexed loop, proved against `Visits` and `OutcomeAt`.
  - `Run` is `main`, given the country code `cc`. Every row is normalised
    with `normalizePhone` for that code (`PhoneOf(cc)`). A schema error is
    fatal before anything else. No rows means a clean stop without a browser.
    A launch or landing-page failure is fatal. Otherwise there is one outcome
    per row.

Normalising is idempotent only for some country codes. For an empty code, or
one made of digits that does not start with `0`, normalising twice is
normalising once (`Phone.Idempotent`). One might expect this for any fixed
code, but it does not hold: with the code `"01"`, `"5"` becomes `"015"`, and
that becomes `"0115"` (`Phone.NotIdempotentExample`).
The model follows the code. The shipped code `''` is in the idempotent case.

## Model

| member | source | states |
|---|---|---|
| Text.TrimStart | index.js:58 | the leading part `trim` removes is all white space, and what remains does not start with white space |
| Text.TrimEnd | index.js:58 | the trailing part `trim` removes is all white space, and what remains does not end with white space |
| Text.TrimEmptyIffBlank | index.js:58 | `l.trim() === ''` exactly when every character of `l` is white space |
| Text.Trim | index.js:58-61 | the trimmed text is no longer than the input and neither starts nor ends with white space |
| Text.TrimLeadingSpace | index.js:61 | white space in front of a string does not change its trimmed form |
| Text.LowerEqualsIff | index.js:61 | lower-casing a text gives a lower-case word exactly when the text spells that word with each letter in either case |
| Text.LowerWordUnchanged | index.js:61 | a lower-case word is unchanged by trimming and by lower-casing |
| Text.SplitOn | index.js:58 | `split` on one character never yields an empty list |
| Text.JoinSplit | index.js:58 | joining the pieces of a split with the separator restores the string |
| Text.SplitJoin | index.js:58 | pieces free of the separator, once joined, split back into themselves |
| Text.SplitNoSep | index.js:58 | no piece of a split holds the separator |
| Text.SplitConcat | index.js:58 | splitting `x + sep + y` gives the pieces of `x` followed by those of `y` |
| Phone.KeepDigits | index.js:21 | what `replace(/[^\d]/g, '')` leaves is all digits |
| Phone.KeepDigitsMembers | index.js:21 | a character is kept exactly when it is a digit of the input |
| Phone.KeepDigitsOfDigits | index.js:21 | a string of digits is kept whole |
| Phone.KeepDigitsConcat | index.js:21 | the digits of a concatenation are the digits of its parts |
| Phone.StripLeadingZeros | index.js:24 | `replace(/^0+/, '')` removes only zeros, from the front, and leaves nothing or a string not starting with `0` |
| Phone.NormalizePhone | index.js:20-29 | input without digits gives `''`; the result is at most the code plus the digits; a non-empty result starts with a non-empty code |
| Phone.EmptyIff | index.js:21-27 | the phone is `''` exactly when the input has no digit, or there is no country code and every digit is `0` |
| Phone.EmptyWithDigits | index.js:22-27 | for input holding a digit, the phone is `''` exactly when there is no country code and every digit is `0` |
| Phone.AllZerosExample | index.js:21-27 | `"0000"` gives `''` with no country code and `"91"` with code `"91"` |
| Phone.DigitsOnly | index.js:21-27 | with an all-digit country code the phone is all digits |
| Phone.NoLeadingZero | index.js:24-28 | with no country code the phone never starts with `0` |
| Phone.StartsWithCountryCode | index.js:22-27 | with a country code, every input holding a digit gives a phone starting with that code |
| Phone.Idempotent | index.js:20-29 | normalising twice equals normalising once when the code is empty, or is all digits and does not start with `0` |
| Phone.NormalizeDigits | index.js:24-27 | a digit string not starting with `0` is kept, with the code in front unless it already starts with it |
| Phone.NormalizeZeroDigits | index.js:24 | one leading zero in front of such a string makes no difference |
| Phone.NotIdempotentExample | index.js:25-27 | with code `"01"`, `"5"` gives `"015"`, and `"015"` gives `"0115"` |
| Phone.Renormalized | index.js:24-27 | with code `"01"`, `"015"` loses its zero and gets the code back in front: `"0115"` |
| Phone.WithoutCountryCode | index.js:21-28 | with no country code the phone is the digits without their leading zeros |
| Phone.DigitsAroundSeparator | index.js:21 | a non-digit between two digit runs disappears and the runs are joined |
| Phone.ExampleCommaPhone | index.js:20-29 | `"123,456"` normalises to `"123456"` |
| Phone.ZerosDropped | index.js:21-24 | two zeros in front of a digit string not starting with `0` are dropped |
| Phone.ExampleZerosPhone | index.js:20-29 | `"0091234"` normalises to `"91234"` |
| CsvLine.Scan | index.js:36-52 | the scan of any rest of a line yields at least one field |
| CsvLine.Fields | index.js:32-54 | the fields `splitCSVLine` returns, read by the quote-aware scan from the start of the line; its count, one more than the commas outside quote mode, is the fact `CsvLine.FieldCount` proves |
| CsvLine.SplitCSVLine | index.js:32-54 | the character loop returns exactly `Fields(line)`, and never an empty list |
| CsvLine.EscapedQuoteStep | index.js:39-41 | in quote mode, `""` adds one `"` to the current field and skips both characters |
| CsvLine.ToggleStep | index.js:42-44 | any other `"` toggles quote mode and adds nothing |
| CsvLine.SeparatorStep | index.js:45-47 | a comma outside quote mode closes the current field and starts an empty one |
| CsvLine.ContentStep | index.js:48-49 | any other character is appended to the current field |
| CsvLine.FieldCount | index.js:45-52 | a line has one field more than it has commas outside quote mode |
| CsvLine.ScanWithoutQuotes | index.js:45-50 | without `"`, the scan is a plain split on `,` |
| CsvLine.NoQuotesIsPlainSplit | index.js:32-54 | a line without `"` splits as `line.split(',')`: the fields join back into the line and none holds a comma |
| CsvLine.FieldCharsFromLine | index.js:36-50 | every character of every field comes from the line |
| CsvLine.ScanEscaped | index.js:38-44 | inside quotes, `""` stands for one `"` and the closing quote ends quote mode |
| CsvLine.QuotedRoundTrip | index.js:32-54 | a record written with every field quoted and every `"` doubled splits back into exactly its fields |
| CsvLine.PlainRoundTrip | index.js:32-54 | fields free of `,` and `"`, joined with commas, split back into themselves |
| CsvLine.ScanPlain | index.js:48-49 | characters that are neither `"` nor a separating comma are copied into the current field |
| CsvLine.MidFieldQuote | index.js:38-49 | a quote inside an unquoted field toggles quote mode: `a"b,c"d` is the single field `ab,cd` |
| CsvLine.EscapeConcat | index.js:39-41 | doubling quotes distributes over concatenation |
| CsvLine.EscapeNoQuote | index.js:39-41 | a text without `"` needs no escaping |
| CsvLine.TwoPlainFields | index.js:32-54 | two fields free of `,` and `"` joined by a comma split back into those two fields |
| CsvLine.QuotedThenPlain | index.js:32-54 | a quoted field, a comma and a plain field split into the unquoted field and the plain one |
| CsvLine.PlainThenQuoted | index.js:32-54 | a plain field, a comma and a quoted field split into the plain field and the unquoted one |
| CsvLine.QuoteFreeThenPlain | index.js:38-50 | a field in quotes holding no `"` keeps its commas, and the comma after the closing quote separates |
| CsvLine.EscapeQuotedWord | index.js:39-41 | doubling the quotes of `a"b"` gives `a""b""` |
| CsvLine.PlainThenQuotedWord | index.js:32-54 | `p,"a""b"""` splits into `p` and `a"b"` |
| CsvLine.ExampleQuotedPhone | index.js:32-54 | `"123,456",Hi` splits into `123,456` and `Hi` |
| CsvLine.ExampleQuotedMessage | index.js:32-54 | `0091234,"Hello, ""world"""` splits into `0091234` and `Hello, "world"` |
| CsvDocument.StripBom | index.js:57 | at most one leading byte-order mark is removed |
| CsvDocument.DropCR | index.js:58 | a line loses exactly one trailing `\r`, if it has one |
| CsvDocument.DropCRs | index.js:58 | cutting at `\r?\n` keeps the number of pieces |
| CsvDocument.SplitLines | index.js:58 | `split(/\r?\n/)` yields at least one line |
| CsvDocument.NonBlank | index.js:58 | the filter never adds lines |
| CsvDocument.HeaderColumn | index.js:61-63 | the column found for a lower-case name is the first header cell that, trimmed, spells it in any letter case; it is -1 exactly when no cell does |
| CsvDocument.HeaderNamesMatch | index.js:61 | a header name equals a lower-case word exactly when its cell, trimmed, spells that word in any letter case |
| CsvDocument.IndexOf | index.js:62-63 | `indexOf` is -1 exactly when the name is absent, and otherwise its first position |
| CsvDocument.Column | index.js:72-73 | `cols[i] ?? ''` is the cell at `i` when there is one, and otherwise `''` |
| CsvDocument.Rows | index.js:68-76 | one contact per data line |
| CsvDocument.ParseLines | index.js:59-76 | the error holds exactly when there is a line and the header lacks `phone` or `message`; otherwise one contact per later line, each value a field of its line or `''` |
| CsvDocument.Parse | index.js:56-77 | on success there is one contact per non-blank line after the header |
| CsvDocument.ParseCSV | index.js:56-77 | the reader returns exactly `Parse(content)` |
| CsvDocument.ReadRows | index.js:68-76 | the row loop returns one contact per line, read from the `phone` and `message` columns (a missing one reads as `''`) |
| CsvDocument.MissingHeadersIff | index.js:59-66 | the reader fails exactly when there is a non-blank line whose header lacks `phone` or `message` |
| CsvDocument.ParsedRows | index.js:61-76 | on success there is one contact per data line, in order, read from the first `phone` and `message` columns |
| CsvDocument.NonBlankAppend | index.js:58 | filtering a concatenation filters each part |
| CsvDocument.NonBlankEmptyIff | index.js:58-59 | no line survives the filter exactly when every line is blank |
| CsvDocument.DropCRBlank | index.js:58 | removing a `\r` does not change whether a line is blank |
| CsvDocument.LinesBlankIff | index.js:58 | every line of the text is blank exactly when the text is blank |
| CsvDocument.NoLinesIffBlank | index.js:57-59 | the reader sees no line exactly when the input is all white space, byte-order mark included |
| CsvDocument.BlankInputIsEmpty | index.js:57-59 | blank input reads as no contacts, not as an error |
| CsvDocument.SplitLinesAround | index.js:58 | cutting `x \n w \n y` gives the lines of `x`, then `w` without its `\r`, then the lines of `y` |
| CsvDocument.BlankLinesIgnored | index.js:58 | a blank line between two parts changes neither the lines read nor the contacts |
| CsvDocument.ContentLinesNoBreak | index.js:58 | no line the reader works on holds a line break |
| CsvDocument.NoLineBreakInFields | index.js:58-75 | no phone and no message read holds a line break, quotes or not |
| CsvDocument.NonBlankSubset | index.js:58 | the filter keeps only lines of its input |
| CsvDocument.SplitLinesBom | index.js:57-58 | a byte-order mark in front of the text is glued to the first line |
| CsvDocument.NonBlankBom | index.js:58 | a mark in front of the first line does not change which lines are blank |
| CsvDocument.HeaderBom | index.js:61 | a mark in front of the header line does not change the header names |
| CsvDocument.ParseLinesBom | index.js:58-76 | a mark in front of text already stripped of one does not change what is read |
| CsvDocument.LeadingBomIrrelevant | index.js:57-61 | a byte-order mark in front of the content never changes the result, even when the content starts with another one |
| CsvDocument.NonBlankKeepsAll | index.js:58 | when no line is blank, the filter keeps every line |
| CsvDocument.ThreeSplitLines | index.js:58 | three lines joined with `\n`, the first two not ending in `\r`, split back into those three |
| CsvDocument.ThreeLines | index.js:57-58 | three non-blank lines, without a leading mark, are the lines the reader works on |
| CsvDocument.HeaderNamesOfWords | index.js:61 | a header of lower-case words reads as itself |
| CsvDocument.HeaderOfWords | index.js:61 | the header line `a,b` of two lower-case words reads as `[a, b]` |
| CsvDocument.ExampleHeader | index.js:61 | the header line `phone,message` splits into `phone` and `message` |
| CsvDocument.PhoneMessageHeader | index.js:61 | the cells `phone` and `message` read as themselves |
| CsvDocument.PhoneMessageColumns | index.js:62-63 | in that header `phone` is column 0 and `message` column 1 |
| CsvDocument.TwoRows | index.js:68-76 | two data lines give two contacts, in order |
| CsvDocument.ParseTwoRows | index.js:56-77 | a `phone,message` header and two lines of two fields each read as the two contacts those fields make |
| CsvDocument.ExampleLineShapes | index.js:58 | the three example lines hold no line break, are not blank, and neither start with a mark nor end in `\r` |
| CsvDocument.ParseExample | index.js:56-77 | the file `phone,message` / `"123,456",Hi` / `0091234,"Hello, ""world"""` reads as the contacts (`123,456`, `Hi`) and (`0091234`, `Hello, "world"`) |
| CsvDocument.BlankLineContent | index.js:57-58 | a blank line between two parts leaves the lines the reader works on unchanged |
| Dispatch.DeepLink | index.js:86 | every deep link starts with the send address and goes on past it |
| Dispatch.JoinParams | index.js:86 | the deep link is the send address followed by its four query parameters joined with `&` |
| Dispatch.JoinFour | index.js:86 | a base followed by four `name=value` parameters joined with `&` is that base and the joined parameters |
| Dispatch.ParamsWithoutAmpersand | index.js:86 | no query parameter holds `&` when neither the phone nor the text does |
| Dispatch.DeepLinkQuery | index.js:85-86 | splitting the query of a deep link on `&` gives back `phone=<phone>` and `text=<text>` |
| Dispatch.DeepLinkInjective | index.js:86 | different phones or texts give different deep links |
| Dispatch.SkippedIff | index.js:80-84 | a row is skipped exactly when its phone has no digit, or there is no country code and every digit is `0` |
| Dispatch.LinkCarriesRow | index.js:85-86 | with an all-digit country code and a URI-safe encoder, a row's link carries its phone and encoded message as parameters |
| Dispatch.Navigation | index.js:80-89 | a row opens at most one address, and none exactly when its phone is empty |
| Dispatch.SendOne | index.js:79-114 | a row with an empty phone is skipped without navigating; any other row opens its link once, and is sent if the attempt succeeds or failed with the error's message if it throws |
| Dispatch.DispatchAll | index.js:139-143 | the loop gives one outcome per row, in order, each as `sendOne` gives it after the earlier rows' links, and opens the dialable rows' links whatever the browser answers |
| Dispatch.NextStep | index.js:139-143 | one more turn of the loop keeps its outcomes and opened addresses equal to those of the rows done so far |
| Dispatch.VisitsSnoc | index.js:139-143 | one more row adds that row's navigation to the end |
| Dispatch.VisitsAppend | index.js:139-143 | the addresses opened for two runs of rows are those of the first run followed by those of the second |
| Dispatch.VisitOrder | index.js:139-143 | rows are attempted in file order: a dialable row opens its link right after the links of the rows before it |
| Dispatch.SkippedRowNoNavigation | index.js:80-84 | a skipped row opens nothing |
| Dispatch.VisitsBound | index.js:139-143 | the loop opens at most one address per row |
| Dispatch.NoVisitsIff | index.js:139-143 | the loop opens nothing exactly when no row has a usable phone |
| Dispatch.HistoryGrows | index.js:139-143 | the page's history strictly grows past every dialable row |
| Dispatch.OtherRowsUnaffected | index.js:111-143 | whatever one row's attempt returns (a timeout, an error), every other row has the same outcome |
| Dispatch.Session | index.js:133-145 | a landing-page failure is fatal with nothing else opened; otherwise the loop runs over all rows after the landing page |
| Dispatch.Run | index.js:116-150 | with `normalizePhone` fixed to the configured country code: a schema error is fatal before any navigation; no rows stops cleanly without a browser; a launch failure is fatal; a landing failure is fatal with its message after opening only the landing page; otherwise every row has its outcome |

## Left out

- The pauses (`sleep`, index.js:16-18, 95, 109, 142) only pace the run and are not modelled.
- Puppeteer is left out: `launch`, `newPage`, `goto`, the 60-second wait for the composer, the send-button lookup and its click, and the Enter key. Each row's attempt is one answer of the `Browser` function. A launch failure is the parameter `launch`.
- Dispatch.SendOne: does not say whether the send button or the Enter key was used, because the lookup over the three selectors happens inside the browser, which is not modelled.
- Dispatch.Session: takes the wait for `#app` (index.js:137, no timeout) to end. Without a login the program waits forever, and that wait is not modelled.
- Reading `input.csv` (index.js:117) is left out. The content is a parameter, and a read error (fatal in the program) is not modelled.
- Console logging and `process.exit(1)` (index.js:152-155) are left out. `RunResult` says which fatal case ended the run, and each row's log line becomes its `Outcome`.
- `encodeURIComponent` is the parameter `encode`. Lemmas that need it ask only that its output is URI-safe. A `URIError` on a lone surrogate cannot arise: `fs.readFile(…, 'utf8')` (index.js:117) decodes ill-formed bytes to U+FFFD, so the text holds no lone surrogate, and the splitter cuts only at `"` and `,`, so no field splits a surrogate pair.
- Strings are sequences of Unicode scalar values, not of UTF-16 code units. This does not change any result, because the splitter compares only with `"` and `,`, and copies every other unit in order.
- `toLowerCase` is modelled for ASCII only. This is exact for comparing header cells with `phone` and `message`: no non-ASCII character lowers into the letters of those words.
- `String(raw || '')` and `message ?? ''` (index.js:21, 85) are identity here, because the reader always yields strings.
- There is no completion marker ("run tracker") and no built-in default contact list in `index.js`, so the model has neither.
