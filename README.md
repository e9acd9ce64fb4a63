# Helpdesk inbound mail: disposition and roster filter

This project models the two pieces of decision logic in the helpdesk backend and proves
properties of them in Dafny.

1. **The inbound-mail handler** (`email-service.js`, the `simpleParser` callback). For one
   parsed message (the sender's address, the subject and the plain-text body) it decides
   one of three outcomes:
   - a *resolution notice*: the subject matches the reply pattern
     `Re: New Helpdesk Request Assigned (ID: <digits>):` and the lowercased body contains
     `resolved`, `completed`, `fixed` or `done`. The report with those digits is updated
     to `resolved`;
   - a *skip*: the sender is blocked by the sender rule;
   - a *new ticket*: a report is built from the message, enriched from the user roster,
     assigned to the first admin or superadmin, and posted. When the post answers 201,
     the assignee gets a notice whose subject is exactly what the reply pattern parses.

   The resolution test runs before the sender rule. Every path ends by requesting the
   message's `\Seen` flag.
2. **The roster CSV filter** (`filter_mbusers.js`). It splits the file text on `\r?\n`,
   keeps the header, drops blank rows, keeps a row when its lowercased first field ends
   with `@gmail.com` or `@may-bakerng.com`, and joins the result with `\n`.

The two allow-lists are separate, and the model keeps them apart:
- the sender rule accepts `@gmail.com` and `@may-baker.com`, compared case-sensitively;
- the CSV filter accepts `@gmail.com` and `@may-bakerng.com`, compared after lowercasing.

Modules:
- `Options` (options.dfy): the optional value.
- `Text` (text.dfy): the JavaScript string operations used: `endsWith`, `includes`,
  `toLowerCase`, `trim`, `\d`, and the decimal text of a number.
- `ReplySubject` (reply_subject.dfy): the assignment-notice subject and the reply regular
  expression, with its leftmost-match semantics.
- `Classifier` (classifier.dfy): the pure three-way disposition of a message.
- `Intake` (intake.dfy): roster lookup and staff pick, the report, and `Plan`, which lists
  the handler's outward effects in order. The class `Mailroom` holds the `\Seen` flag
  requests sent to the mailbox and the effect log. Its method `HandleParsed` performs the callback step by step
  and is proved to issue exactly the effects of `Plan`.
- `UserFilter` (user_filter.dfy): the filter loop as a method, proved against the
  specification function `FilterText`, plus the lemmas about that function.

The HTTP calls are inputs to the model (`Intake.Replies`):
- the two separate `GET /api/users` reads;
- the `POST /api/reports` answer (status and id).

`None` in `Replies` stands for a call that threw. axios throws for any non-2xx status. The
clock's date and time text is an input too (`Intake.Clock`).

Notes on what the code does:
- The explicit exclusion of `hello@notify.railway.app` is redundant. That address already
  fails the suffix test, so the sender rule is exactly the suffix allow-list
  (`Classifier.SenderBlockedIffNoAllowedSuffix`).
- The handler connects to the mailbox once. It has no timer, so there is no polling loop
  to model.
- The handler sends the assignment notice only when the post answered 201. It also needs
  a truthy (non-empty) assignee address, because of `if (report.staff)`.

## Model

| member | source | states |
|---|---|---|
| `ReplySubject.DigitRun` | email-service.js:61 | the greedy `\d+`: the length of the leading digit run, all digits, and followed by a non-digit or the end of the string |
| `ReplySubject.MatchesAt` | email-service.js:61 | defines the pattern tested at one position: the literal marker, a digit run of length at least one taken greedily, then `):`; shown equal to the regular expression by `MatchesAtIsRegex` |
| `ReplySubject.Capture` | email-service.js:66 | defines `replySubjectMatch[1]` for a match at a position: the digit run after the marker; shown to be a non-empty digit string by `CaptureIsDigits` |
| `ReplySubject.CaptureIsDigits` | email-service.js:66 | the captured id of any match is a non-empty string of ASCII digits |
| `ReplySubject.LeftmostMatch` | email-service.js:61 | the position found is a match, no earlier position matches, and `None` means no position matches at all |
| `ReplySubject.MatchesAtIsRegex` | email-service.js:61 | the greedy-digit check `MatchesAt` holds exactly when the regular expression matches at that position for some group length; the group length is then forced, so the captured digits are unique |
| `ReplySubject.ReplyTicketId` | email-service.js:61-66 | a captured report id is a non-empty run of ASCII digits |
| `ReplySubject.ReplyTicketIdIsLeftmostCapture` | email-service.js:61-66 | an id is found exactly when the pattern occurs in the subject, and it is the capture of the leftmost occurrence |
| `ReplySubject.ReplyToAssignmentYieldsId` | email-service.js:155 | `Re: ` followed by the subject of the notice for report `id` parses back to the decimal text of `id` |
| `Text.DecimalString` | email-service.js:155 | the id substituted into the notice subject is a non-empty digit string with no leading zero |
| `Text.DecimalRoundTrip` | email-service.js:155 | reading the decimal text of a number back gives that number |
| `ReplySubject.AssignmentSubject` | email-service.js:155 | defines the notice subject: the fixed marker, the decimal id, `): `, then the issue; recognised again by `ReplyToAssignmentYieldsId` |
| `Classifier.IsResolutionBody` | email-service.js:62-63 | defines the keyword test: the lowercased body includes one of the four keywords; characterised in `ResolutionIffReplyAndKeyword` |
| `Classifier.SenderBlocked` | email-service.js:98 | defines the sender rule as written, railway exclusion included; reduced to the suffix test by `SenderBlockedIffNoAllowedSuffix` |
| `Classifier.Classify` | email-service.js:61-98 | a resolution notice carries a non-empty digit id; a message is skipped exactly when it is not a resolution notice and its sender ends with neither `@gmail.com` nor `@may-baker.com` |
| `Classifier.ResolutionIffReplyAndKeyword` | email-service.js:61-66 | a message is a resolution notice exactly when the reply pattern occurs in its subject and its lowercased body contains a resolution keyword; the id is the capture of the leftmost occurrence |
| `Classifier.ResolutionIgnoresSender` | email-service.js:65-98 | changing the sender of a resolution notice does not change its disposition, because the resolution test precedes the sender rule |
| `Classifier.ReplyWithoutKeywordFallsThrough` | email-service.js:63-98 | a reply-formatted subject without a keyword is skipped or opens a ticket, as the sender rule decides |
| `Classifier.RailwayAddressFailsSuffixTest` | email-service.js:98 | `hello@notify.railway.app` ends with neither allowed suffix |
| `Classifier.SenderBlockedIffNoAllowedSuffix` | email-service.js:98 | the sender rule blocks exactly the addresses that end with neither `@gmail.com` nor `@may-baker.com` (case-sensitive) |
| `Classifier.ReplyToAssignmentResolves` | email-service.js:61-66 | a reply to the notice for report `id` whose body has a keyword resolves report `id`, whoever sends it |
| `Classifier.PlainRequestOpensTicket` | email-service.js:96-115 | `a@gmail.com` with subject `Printer broken` and body `please help` opens a ticket |
| `Classifier.ForeignSenderSkipped` | email-service.js:98-106 | a message from `notify@system.example` is skipped unless it is a keyword reply to a notice |
| `Classifier.FixedReplyResolvesReport42` | email-service.js:61-66 | `Re: New Helpdesk Request Assigned (ID: 42): Printer broken` with body `fixed, thanks` resolves report `42` |
| `Intake.FindUser` | email-service.js:121 | the user returned is the first roster entry whose email equals the sender exactly; `None` means no entry has that email |
| `Intake.IsStaffRole` | email-service.js:130 | defines the staff test: the role is exactly `admin` or `superadmin` |
| `Intake.StaffOf` | email-service.js:130 | the filtered list holds exactly the roster's admins and superadmins; it is empty exactly when the roster has none; its head is the first of them in roster order |
| `Intake.Assignee` | email-service.js:130-134 | an assignee exists exactly when the roster has an admin or superadmin, and it is the email of the first one |
| `Intake.TicketFor` | email-service.js:108-135 | defines the report the new-ticket path posts; its fields are stated by `TicketFields` |
| `Intake.TicketFields` | email-service.js:108-135 | the posted report's issue is the subject, its description the body, `reportedBy` the sender, status `open`. Branch and department come from the first roster entry with the sender's email, else both are unset. Staff is the first admin or superadmin of the second roster read, else it is unset |
| `Intake.BuildReport` | email-service.js:108-135 | the report built field by field is the report `TicketFor` describes |
| `Intake.AssignmentNotice` | email-service.js:138-155 | defines the notice effect: one `SendAssignment` to the staff address with the `AssignmentSubject` of the returned id, when due; when it is due is stated by `NoticeOnlyAfterCreation` |
| `Intake.NewTicketActions` | email-service.js:117-198 | defines the new-ticket effects before the acknowledgement; their shape is stated by `NewTicketPlan` and `CreateOnlyForAllowedSender` |
| `Intake.Plan` | email-service.js:53-205 | defines the handler's effects for one message, in order; the lemmas below state what they are on each path |
| `Intake.AcknowledgedOnceLast` | email-service.js:88-205 | on every path the `\Seen` flag is requested exactly once, as the last effect |
| `Intake.UpdateOnlyForResolution` | email-service.js:65-94 | a status update is issued exactly for a resolution notice; the plan is then the update to `resolved` for the captured id, followed by the acknowledgement |
| `Intake.CreateOnlyForAllowedSender` | email-service.js:96-137 | a report is posted exactly when the message opens a ticket and both roster reads succeeded; the post is the first effect, its sender has an allowed suffix, and it carries `TicketFor`'s report |
| `Intake.PostInNewTicketActions` | email-service.js:117-137 | within the new-ticket path, the report is posted exactly when both roster reads succeeded, as its first effect, carrying `TicketFor`'s report |
| `Intake.BlockedSenderOnlyAcknowledged` | email-service.js:98-106 | a non-resolution message that fails the sender rule only gets acknowledged |
| `Intake.NewTicketPlan` | email-service.js:117-205 | with both roster reads done, the plan is the post, then the notice if due, then the acknowledgement |
| `Intake.NoticeOnlyAfterCreation` | email-service.js:138-155 | a notice is sent exactly when the post answered 201 and a non-empty assignee address was found |
| `Intake.NoticeAddressing` | email-service.js:137-155 | the notice follows the post of the same report, goes to that report's staff, and its subject is built from the returned id and the issue |
| `Intake.NoticeReplyResolvesCreatedReport` | email-service.js:152-155 | a keyword reply to a notice the handler sent is classified as the resolution of the report the post created |
| `Intake.Mailroom.Acknowledge` | email-service.js:201-205 | records the `\Seen` flag request for the message and logs one acknowledgement |
| `Intake.Mailroom.OpenTicket` | email-service.js:117-198 | issues exactly the new-ticket effects and leaves the flag requests alone |
| `Intake.Mailroom.HandleParsed` | email-service.js:53-205 | issues exactly the effects of `Plan` and adds the message to the set of flag requests |
| `Text.LowerChar` | email-service.js:63 | defines the modelled character mapping of `toLowerCase`: ASCII capitals and the Kelvin sign become lower-case ASCII letters, every other character is kept (see "## Left out") |
| `Text.Lower` | email-service.js:63 | defines the model of `toLowerCase`: the string lowered one character at a time by `LowerChar` |
| `Text.LowerIdempotent` | email-service.js:63 | lowering a lowered string changes nothing, and a lowered string holds no ASCII capital letter |
| `Text.Contains` | email-service.js:63 | defines `includes`: the keyword occurs at some position of the text |
| `Text.EndsWith` | email-service.js:98 | defines `endsWith`: the last characters of the string are the suffix, compared exactly |
| `Text.IsJsWhitespace` | filter_mbusers.js:15 | defines the characters `trim` removes: the ECMAScript WhiteSpace and LineTerminator characters |
| `Text.TrimStart` | filter_mbusers.js:15 | the result is empty or starts with a character `trim` keeps; it is empty exactly when the line is blank |
| `Text.TrimEnd` | filter_mbusers.js:15 | the result is empty or ends with a character `trim` keeps; it is empty exactly when the line is blank |
| `Text.TrimStartDropsBlankPrefix` | filter_mbusers.js:15 | trimming the start removes exactly a leading run of whitespace: the result is the rest of the line |
| `Text.TrimEndDropsBlankSuffix` | filter_mbusers.js:15 | trimming the end removes exactly a trailing run of whitespace: the result is a prefix of the line |
| `Text.Trim` | filter_mbusers.js:15 | defines `trim` as trimming the start, then the end; `TrimEmptyIffBlank` states when it is empty |
| `Text.TrimEmptyIffBlank` | filter_mbusers.js:15 | `!line.trim()` holds exactly for lines made only of JavaScript whitespace and line terminators |
| `UserFilter.FirstField` | filter_mbusers.js:16 | the first field is a prefix of the line without a comma, ended by a comma or by the end of the line |
| `UserFilter.SplitLines` | filter_mbusers.js:9 | splitting yields at least one line, and no line holds a line feed; each separator, `\n` or `\r\n`, is handled on its own, as `SplitMixedRoundTrip` states |
| `UserFilter.AllowedEmail` | filter_mbusers.js:7-17 | defines the domain test: the email ends with `@gmail.com` or `@may-bakerng.com` |
| `UserFilter.KeepRow` | filter_mbusers.js:15-17 | defines the row test: not blank, and the lowercased first field ends with an allowed domain; characterised by `KeptRowsExactly` |
| `UserFilter.KeepRows` | filter_mbusers.js:13-19 | defines the kept data rows; `KeptRowsExactly` and `KeptRowsInOrder` state which and in what order |
| `UserFilter.FilteredLines` | filter_mbusers.js:10-19 | defines the output lines: the header, then the kept rows; stated by `HeaderFirst` and `FilteredLinesIdempotent` |
| `UserFilter.JoinLines` | filter_mbusers.js:22 | defines `join('\n')`; inverse of the split by `JoinSplitNoCr` and `SplitJoinRoundTrip` |
| `UserFilter.FilterText` | filter_mbusers.js:9-22 | defines the whole text-to-text filter; `FilterUsers` is proved equal to it and `FilterIdempotent` shows it is idempotent |
| `UserFilter.FilterUsers` | filter_mbusers.js:9-22 | the loop's output is `FilterText` of the input |
| `UserFilter.HeaderFirst` | filter_mbusers.js:10-11 | the first output line is the first input line; the output text begins with it; the output never has more lines than the input |
| `UserFilter.KeptRowsExactly` | filter_mbusers.js:15-18 | a line is among the kept rows exactly when it is an input data row that is not blank and whose lowercased first field ends with an allowed domain |
| `UserFilter.BlankRowsDropped` | filter_mbusers.js:15 | a data row made only of whitespace never appears in the output |
| `UserFilter.KeptRowsInOrder` | filter_mbusers.js:13-19 | the kept rows are a subsequence of the data rows, in input order and verbatim, and every skipped position holds a row that fails the test |
| `UserFilter.KeepRowsShorter` | filter_mbusers.js:13-19 | there are never more kept rows than data rows |
| `UserFilter.JoinSplitNoCr` | filter_mbusers.js:9 | for text without carriage returns, joining the split lines with `\n` gives the text back |
| `UserFilter.JoinMixed` | filter_mbusers.js:9 | defines a file whose separators are chosen one by one, each `\r\n` or `\n` |
| `UserFilter.SplitMixedRoundTrip` | filter_mbusers.js:9 | lines without line feeds, joined by any mix of `\n` and `\r\n`, split back into the same lines, provided no line before a bare `\n` ends in `\r` |
| `UserFilter.SplitCrLfRoundTrip` | filter_mbusers.js:9 | lines without line feeds joined with `\r\n` split back into the same lines: the `\r` before each `\n` is dropped, a `\r` that belongs to a line is kept |
| `UserFilter.SplitJoinRoundTrip` | filter_mbusers.js:9-22 | lines without line feeds and not ending in `\r`, after joining with `\n`, split back into the same lines |
| `UserFilter.KeepRowsIdempotent` | filter_mbusers.js:16-18 | filtering the kept rows again keeps all of them |
| `UserFilter.FilteredLinesIdempotent` | filter_mbusers.js:10-19 | header plus kept rows is a fixed point of the line filter |
| `UserFilter.FilterIdempotent` | filter_mbusers.js:9-22 | running the filter on its own output returns the same text, whenever no split input line ends in `\r` (in particular when no line contains `\r`) |

## Left out

- IMAP connection, `openBox`, the `UNSEEN` search, and the `fetch`/`message`/`body` event wiring are not modelled. So are `imap.end()` and the errors thrown in those callbacks: they are network I/O and event plumbing. The model starts from one parsed message and its sequence number.
- Concurrency is not modelled: the callbacks of several fetched messages are asynchronous and may interleave. Each message is modelled on its own.
- The axios calls are not performed. Their results are the `Replies` input. The answer to the status `PUT` is only logged by the source, so it has no effect in the model.
- The report store behind `/api/reports` and `/api/users` is not modelled: its server code is not part of this model.
- A report id is modelled as a natural number (`Created.id`), rendered in decimal. A store that returned a non-numeric id is not modelled.
- ReplySubject.AssignmentSubject, Text.DecimalString and ReplySubject.ReplyToAssignmentYieldsId: the id is written as exact decimal for every natural number. `${response.data.id}` formats a JavaScript Number, which is exact only below 2^53 (9007199254740992). Above that the text is rounded (2^60 becomes `1152921504606847000`), and from 10^21 it is in exponent form (`1e+21`), which the reply pattern does not match, so a keyword reply to that notice is not recognised and goes on to the sender rule. The round trip is therefore the source's behaviour only for ids below 2^53.
- Intake.Mailroom.Acknowledge and Intake.Mailroom.HandleParsed: `requested` records the messages whose `\Seen` flag was requested, not the flags the server set. `imap.addFlags` reports a failure only to a callback that logs it. Such a failure is possible, for example after `imap.end()` on the fetch's `end` event while the handler is still awaiting its HTTP calls. The sequence number is passed as given; whether the server reads it as a sequence number or a UID is not modelled. The flag is written `'\Seen'`, which JavaScript reads as the string `Seen` (`\S` is an identity escape); whether that sets the `\Seen` flag depends on the IMAP client library adding the backslash, which is not part of this model.
- nodemailer transport creation, `sendMail` and the HTML body of the notice are not modelled. A `SendAssignment` effect records the recipient, the subject and the report the template would show. Delivery errors are only logged by the source.
- `new Date()` with `toLocaleDateString`/`toLocaleTimeString` is not modelled: the clock and locale are the `Clock` input. The source reads the clock separately for the date and for the time of a new report. The model takes one clock reading.
- `console.log`/`console.error` output is not modelled.
- A parsed message whose `subject` or `text` is undefined is not modelled: the source throws at line 61 or 63, before any effect or acknowledgement. Neither is one whose `from.value[0]` is missing. The model takes all three as strings.
- Text.Lower and Text.LowerChar: `toLowerCase` is modelled on ASCII letters plus the Kelvin sign, one character for one, so the model keeps the length where JavaScript may not. The Kelvin sign is the only non-ASCII character whose lower case is a single ASCII letter. Other non-ASCII characters are left as they are. The keywords and domains compared against are ASCII and none ends in `i`, so this does not change any test the source makes. (`İ` lowers to `i` followed by a combining dot.)
- JavaScript strings are sequences of UTF-16 code units; here they are sequences of Unicode scalar values. No test in the core depends on the difference.
- `fs.readFileSync`/`writeFileSync` and the file paths of the CSV filter are not modelled: only the text-to-text transformation is.
- ai.js (a proxy to an external chat API), db.js (database connection and table creation) and server.js (web server setup) are not modelled. They hold no decision logic of the core.
