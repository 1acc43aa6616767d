# go-get-slack-chat: a verified model of the reporting run

go-get-slack-chat is a one-shot command-line program in a single Go file, `main.go`.
It asks the operator for a date `yyyy-MM-dd`. It then reads the authorized names for
that month from a name directory and the workspace members from users.list. Next it
pages through conversations.history for one channel over a window: from the day
before the first of the month until 23:59:59 of the given day, Tokyo time (UTC+9).
The messages are sorted by their `ts` text and grouped by sender. Each sender whose
member record carries an authorized real name gets one sheet. The sheet has three
columns: date, time and text of that sender's messages, from the window start on.
The workbook is saved as `YYYYMM.xlsx`.

This project models that run in Dafny, module by module:

- `Results`: the `Option` and `Result` wrappers.
- `Text`: the string primitives the program relies on.
  - `strings.Compare` with its ordering laws.
  - `strings.HasPrefix`.
  - `strconv.ParseInt(s, 10, 64)`, including its syntax-error and range-error results, which the caller ignores.
- `Calendar`: proleptic Gregorian day numbers and the fixed UTC+9 zone.
  - The reporting window of `time.Date(...)` and `.AddDate(0, 0, -1)`.
  - `time.Parse` with the layout `2006-01-02`.
  - `Format("2006-01-02")` and `Format("200601")`.
  - `time.Unix(c, 0).Before(start)`, which compares the internal int64 second counts, where c's can wrap around.
- `Slack`: the message, member and reply records, and `exeSlackApi`'s decision on one reply.
- `Pagination`: the cursor loop of `fetchSlackMessages` as a method.
  - It works over an abstract service `Request -> HistoryReply`.
  - It is proved against `Gathered`, the concatenation of the pages in call order.
- `Grouping`: the stream's `Sort` by `ts` and `GroupBy` on `user`.
- `Report`: the three loops of `main` that build the workbook.
  - Sheet-name resolution.
  - Row building with the window filter.
  - The visit of the groups in Go's unspecified map order.
  - Each loop is a method proved against a specification function.
- `Pipeline`: `main`'s control flow, with its early exits, as the method `Run`. Its flag `keepLastPage` chooses between the fetch as written (false) and the corrected fetch (true).

## Model

| member | source | states |
|---|---|---|
| Text.Compare | main.go:127-128 | strings.Compare on two timestamps returns -1, 0 or +1, deciding on the first differing character, a proper prefix sorting first |
| Text.HasPrefix | main.go:144 | strings.HasPrefix holds exactly when the real name is at least as long as the authorized name and begins with it |
| Text.CompareZeroIffEqual | main.go:127-128 | strings.Compare returns 0 exactly when the two timestamps are equal |
| Text.CompareAntisymmetric | main.go:127-128 | swapping the arguments of strings.Compare negates the result |
| Text.NoLaterTotal | main.go:127-128 | any two timestamps are ordered one way or the other by the sort's comparator |
| Text.NoLaterTransitive | main.go:127-128 | the comparator's "no later" relation is transitive, so sorting by it is well defined |
| Text.ParseInt64 | main.go:169 | strconv.ParseInt with the error ignored always yields a value in the int64 range |
| Text.ParseInt64Decimal | main.go:169 | every non-negative int64 written in decimal parses back to itself |
| Text.ParseInt64NotNumeral | main.go:169 | text that does not start like a numeral parses to 0, the value kept when the syntax error is ignored |
| Slack.TsSeconds | main.go:165-169 | the seconds of a message are its `ts` without the last seven characters, read as an int64 with the error dropped, so always within the int64 range |
| Slack.TsSecondsOfSlackTimestamp | main.go:165-170 | cutting ".micros" off a timestamp "seconds.micros" and parsing the rest gives exactly the whole seconds |
| Calendar.ReportWindow | main.go:117-118 | the window starts at a local midnight and ends at local 23:59:59, and start is before end |
| Calendar.WindowStartIsLastDayOfPreviousMonth | main.go:117-118 | the start is 00:00 on the last day of the previous month (31 December of the previous year for January); the end is 23:59:59 of the target day |
| Text.Wrap64 | main.go:170 | int64 addition: the result lies in the int64 range and differs from the exact sum by a multiple of 2^64; it is the sum when that fits, and the sum less 2^64 just above the range |
| Calendar.UnixBefore | main.go:170-171 | `time.Unix(c, 0).Before(start)`: c + 62135596800 with int64 wrap-around, compared with start + 62135596800 the same way; when neither count wraps, it is exactly c < start |
| Calendar.UnixBeforeIff | main.go:170-171 | for an int64 second count and a start that time.Time holds exactly, `time.Unix(c, 0).Before(start)` holds exactly when c is before start or past MaxUnixSeconds, where the internal count wraps |
| Calendar.WindowStartStoredExactly | main.go:117-118 | the window start of any date with a four-digit year is such a start: it lies between the int64 minimum and MaxUnixSeconds |
| Calendar.ParseDate | main.go:99-103 | an accepted date has a four-digit year, a month in 1..12 and a day within that month; anything else is a parse error |
| Calendar.ParseFormattedDate | main.go:99-100 | formatting any layout date as yyyy-MM-dd and parsing it back gives the same date |
| Calendar.ParsedDateIsFormatted | main.go:99-100 | every text the parser accepts is the canonical yyyy-MM-dd rendering of the date it yields |
| Calendar.FormatYearMonth | main.go:186 | the month key is six decimal digits: the first four read as the year, the last two as the month, and it is the yyyy-MM-dd rendering with the dashes and the day removed |
| Slack.ExeSlackApi | main.go:310-327 | there is no error exactly when the reply decodes and has ok set; on error, no messages and an empty cursor; otherwise the reply's messages and next_cursor |
| Slack.UpstreamErrorNamesBoth | main.go:322-324 | the error for a reply with ok false carries both its `error` and its `needed` values |
| Pagination.FetchSlackMessages | main.go:263-307 | as written, the result is the pages before the first one with an empty cursor, in call order; every one of those calls succeeded |
| Pagination.FetchAllSlackMessages | main.go:287-304 | with the last page kept, the result is all pages up to and including the first one with an empty cursor, in call order |
| Pagination.LastCallIsFirstEnd | main.go:297-301 | the loop ends on the first call whose reply carries an empty cursor |
| Pagination.FailedCallIsLast | main.go:293-301 | a failed call ends the loop (its empty cursor), so nothing after it is requested and its error is dropped |
| Pagination.GatheredFromPages | main.go:303 | every fetched message comes from one of the pages requested |
| Pagination.GatheredGrows | main.go:303 | pages are appended in call order: fewer calls give a prefix of the result |
| Pagination.LastPageDropped | main.go:297-303 | for a channel with one page, the loop as written returns nothing, while keeping the last page returns its message |
| Pagination.CorrectedKeepsLastPage | main.go:297-303 | keeping the last page adds exactly that page's messages to the as-written result |
| Grouping.Insert | main.go:126-128 | inserting into a sorted list keeps it sorted by `ts` and adds exactly the one message |
| Grouping.SortByTs | main.go:126-128 | the sort yields a permutation of the messages in non-decreasing strings.Compare order of `ts` |
| Grouping.GroupByUser | main.go:129 | one group per distinct sender, holding exactly that sender's messages in input order |
| Grouping.OfUserPermutation | main.go:126-129 | picking out one sender's messages commutes with reordering, as multisets |
| Grouping.OfUserSorted | main.go:126-129 | picking out one sender's messages from a sorted list leaves them sorted |
| Grouping.OfUserSender | main.go:129 | every message in a sender's group was sent by that sender and is among the input |
| Grouping.SortThenGroup | main.go:126-129 | after sort-then-group a sender has a group iff they sent a message; the group is sorted by `ts` and is a permutation of exactly their messages |
| Report.ResolveSheetName | main.go:140-149 | the nested member and name loops leave the real name of the last member with the sender's id whose real name starts with an authorized name, or "" |
| Report.SheetNameIsEligible | main.go:140-152 | a non-empty sheet name is the real name of an eligible member with the sender's id |
| Report.SheetNameOfLastEligible | main.go:140-149 | the sheet name comes from the last eligible member in list order; no eligible member gives "" |
| Report.SheetNameWithUniqueIds | main.go:140-152 | with unique member ids, a sheet is made iff the sender's member has a non-empty authorized real name, and it is named after that member |
| Report.Kept | main.go:163-173 | the filter keeps no more rows than the group has, and each kept row can be cut like the group's (its exact content: KeptFromGroup, KeptCount, KeptIsSubsequence) |
| Report.KeptFromGroup | main.go:163-173 | every row kept comes from the group, and `Before(start)` is false for its time |
| Report.KeptCount | main.go:163-177 | the filter keeps each message exactly as often as it occurs in the group when `Before(start)` is false for its time, and never otherwise |
| Report.KeptWithinStoredRange | main.go:168-173 | for a start time.Time holds exactly, the kept messages are precisely the group messages whose seconds lie from start up to MaxUnixSeconds |
| Report.SaturatedSecondsDropped | main.go:168-173 | a message whose seconds lie past MaxUnixSeconds, such as a `ts` whose whole part overflows int64 and saturates, gives no row |
| Report.KeptIsSubsequence | main.go:163-177 | the kept rows are the group with some messages left out, the rest in order |
| Report.KeptSorted | main.go:163-177 | rows kept from a sorted group stay sorted by `ts` |
| Report.BuildRows | main.go:160-177 | the row loop fills the date, time and text columns with exactly the group's messages for which `Before(start)` is false, in group order |
| Report.RenderSheet | main.go:160-181 | a sheet carries its name, three columns of equal length, and every row shows the text, date and time of a group message for which `Before(start)` is false |
| Report.BuildSheets | main.go:137-183 | the groups are visited once each in some order and the sheets are those of SheetsFor in that order: each sheet renders a sender with a sheet name, and each such sender has its sheet |
| Report.SheetsFromSenders | main.go:139-181 | every sheet renders, under its sheet name, the group of a sender that has a non-empty sheet name |
| Report.SendersHaveSheets | main.go:139-181 | every visited sender with a non-empty sheet name has its rendered sheet among the sheets |
| Pipeline.Run | main.go:97-189 | a bad date gives InvalidDate; no names for the month gives NoAuthorizedNames; a members failure gives MembersFailed; otherwise the workbook YYYYMM.xlsx with the sheets of the fetched messages, sorted and grouped. With keepLastPage false these are what fetchSlackMessages returns as written, the last page lost; with true, every page |
| Pipeline.GroupRowsOfSender | main.go:126-177 | a sender of some fetched message has a group; the rows kept from it are sorted by `ts`, are among the fetched messages, are all from that sender, and each has its seconds from start up to MaxUnixSeconds |
| Pipeline.SenderMessagesGrouped | main.go:126-129 | every fetched message lands in its sender's group after sort-then-group |
| Pipeline.RenderedSheetOfSender | main.go:139-181 | the sheet rendered for a sender with a sheet name belongs to an eligible member and holds that sender's own rows |
| Pipeline.WorkbookSheetsAreAuthorizedSenders | main.go:126-183 | every sheet of the workbook is named after an authorized member and holds only that sender's messages with seconds from start up to MaxUnixSeconds, in `ts` order |

## Left out

- Reading `config.json`, the console prompt with `readString`, and `exec`'s HTTP requests are not modelled. The target date is a parameter, already trimmed of "\r\n".
- `getUserName` is not modelled. The name directory is a parameter from the month key to the list of names; an empty list stands for any failure, since `getUserName` returns nil then.
- `getMembers` is not modelled. It is a parameter `Result<seq<Member>, string>`.
- The JSON decoding of replies is not modelled. A conversations.history reply is given already classified as a transport failure, an undecodable body or a decoded response.
- Building the request URL and its fixed query parameters (main.go:267-285) is not modelled. A request is the query (channel, start, end in Unix seconds) plus the cursor, with "" for the first call.
- Pagination.FetchSlackMessages: requires that some call returns an empty cursor. The source loops for ever otherwise.
- The error branch after the fetch (main.go:120-123) cannot be reached and is not modelled, because `fetchSlackMessages` always returns a nil error.
- `time.Format` with "2006-01-02" and "15:04:05" on a Unix time is not modelled. It is given as parameters `formatDate` and `formatClock`, from Unix seconds to text.
- The end's 59 nanoseconds are not modelled, because only `end.Unix()` is used.
- Report.BuildSheets: requires that no message of a sender who gets a sheet has a `ts` shorter than seven characters. The source's slice `msg[:len(msg)-7]` panics on such a message.
- Pipeline.Run: assumes `f.NewSheet` succeeds. excelize's sheet-name checks (main.go:154-158) are not part of this model, so a name excelize refuses, which makes the run stop without saving, is not captured.
- Pipeline.Run: two senders whose sheet names coincide give two entries in the modelled workbook. excelize would write both into one sheet.
- `SetSheetCol`, `SetColWidth`, `SaveAs` and `f.Close` are not modelled. The workbook is the outcome value: its file name and its list of sheets.
- The diagnostic output with `fmt.Println` is not modelled.
- Grouping.SortByTs: the library's sort is modelled by one particular insertion sort. The properties proved about it (sorted, a permutation, each sender's messages kept) hold for any sort by `ts`.
- Pipeline.Run: the order of two messages with equal `ts` within a sheet is the order this insertion sort gives them. The library's sort does not promise that order, so for such ties the rows of the modelled workbook are one of the orders the program may produce, not the only one.
- Slack.TsSeconds: Go cuts `msg[:len(msg)-7]` and panics on short texts by counting bytes, the model counts characters. Slack timestamps are ASCII digits and a dot, where the two counts coincide; a non-ASCII `ts` is not modelled.

Behaviour of `main.go` worth noting:

- `getMembers` does not check the `ok` field of users.list (main.go:247-260). A reply with ok false yields its (empty) member list and no error.
- Errors from `exeSlackApi` are dropped inside the fetch loop (main.go:293-295). A failed call ends the loop like a last page; the run goes on with the pages gathered so far.
- The fetch window and the row filter use the same `start` (main.go:117, 119, 171). There is no one-day offset between them.
- `time.Unix(c, 0)` stores c plus 62135596800 seconds in an int64 (main.go:170). For c past MaxUnixSeconds that sum wraps to a large negative count, so `Before(start)` holds and the message gives no row. This covers every `ts` whose whole part overflows int64, which ParseInt saturates to the int64 maximum.
- The loop stops before appending the page whose cursor is empty, so that page is lost. `Pipeline.Run` with `keepLastPage` false models this as written; with true it keeps the page. See Findings.

## Findings

| source | as written | input that shows it | evidently intended | confidence | as-written member | corrected member |
|---|---|---|---|---|---|---|
| main.go:297-303 | the loop breaks on an empty cursor before appending that reply's messages | a channel whose history fits one page: one reply with ok true, messages [m], empty next_cursor; the result is [] | append the page, then stop on an empty cursor, so the result is [m] | high (not executed) | Pagination.LastPageDropped | Pagination.FetchAllSlackMessages |
