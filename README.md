# DeLogger parse handler, modelled in Dafny

DeLogger is a small Go web service. Its one endpoint, `/api/parse`, takes a
block of log text in the body of a POST request and answers with a JSON array
of entries. The text is split on "\n". Each piece is trimmed with
`strings.TrimSpace`, and blank pieces are skipped. Every remaining line is
matched against the RE2 pattern `^\[(.*?)\]\s+\[(.*?)\]\s+(.*)$`. A matching
line becomes a structured entry (timestamp, level, message). Any other line
becomes a raw entry holding the line. For every request the handler also
builds an audit record (arrival time, client address, request body, response
body, status code, error message). A deferred call hands that record to the
PostgreSQL audit table once, in whatever state the request left it.

The model has five modules:

- `Text` (`text.dfy`): `strings.Split(s, "\n")` and `strings.TrimSpace` over
  Go's exact `unicode.IsSpace` set, with `Join` as the inverse of `Split`.
- `LineRegex` (`line_regex.dfy`): the line pattern as RE2 runs it.
  `IsMatch` says when a set of boundaries matches the whole line. `Precedes`
  is the order a backtracking matcher tries alternatives in: the lazy groups
  shortest first, the greedy `\s+` runs longest first. `Match` is an
  explicit search that returns the first match in that order. Here `.` is
  any character except '\n', and `\s` is the ASCII class `[\t\n\f\r ]`.
- `Parser` (`parser.dfy`): `LogEntry`, `Classify` for a single line, and the
  handler's loop `ParseLines` as a method. The loop is proved against the
  specification function `Entries = ClassifyEach ∘ NonBlank ∘ Split`.
- `Handler` (`handler.dfy`): `LogRecord` as a value the handler updates field
  by field, and `AuditSink` as a class that stands in for `recordLog`.
  `ParseHandler` is a method. Each early `return` is a `break` out of a
  labelled block, and the deferred `recordLog` is the call after that block.
  The outcomes the handler cannot see in advance are parameters: whether
  the body read succeeded, whether encoding succeeded, whether the write
  succeeded and whether the insert succeeded.
- `Scenarios` (`scenarios.dfy`): concrete inputs and the entries and records
  the model gives for them.

Three behaviours of the handler worth knowing:

- An input with no non-blank lines leaves `parsedData` as a nil slice.
  `json.Marshal` encodes a nil slice as `null`, not `[]` (`Handler.Marshal`,
  `Scenarios.EmptyPostIsNull`).
- Only "\n" separates lines. A '\r' stays inside its piece and is then
  removed by trimming if it sits at either end.
- The pattern is anchored at both ends. A line with any text before its
  first '[' is raw.

## Model

| member | source | states |
|---|---|---|
| Text.TrimSpace | main.go:152 | the result neither starts nor ends with white space; it is empty exactly when the whole piece is white space |
| Text.TrimSpaceIsSlice | main.go:152 | trimming only removes white space, and only at the two ends: the result is a slice of the piece with nothing but white space around it |
| Text.TrimSpaceIdempotent | main.go:152 | trimming a trimmed line changes nothing |
| Text.Split | main.go:148 | the body splits into one piece more than it has newlines, and no piece contains a newline |
| Text.JoinSplit | main.go:148 | joining the pieces back with "\n" gives the body: splitting loses nothing |
| Text.SplitJoin | main.go:148 | splitting newline-free pieces joined with "\n" gives exactly those pieces back |
| LineRegex.SpaceEnd | main.go:149 | the greedy `\s+` stops at the first character outside `[\t\n\f\r ]` |
| LineRegex.FindLevel | main.go:149 | with the first group and the first `\s+` fixed, and the second group closing at `v` or later: returns a match that no other such match precedes, or reports that every such match closes its second group before `v` |
| LineRegex.FindTimestamp | main.go:149 | trying the first group's `]` at `t`, `t + 1`, ...: returns a match that no match closing its first group at `t` or later precedes, or reports that every match closes its first group before `t` |
| LineRegex.Match | main.go:149 | `FindStringSubmatch`: the result is the first match in priority order, and it is None exactly when no split of the line matches the pattern |
| LineRegex.FirstMatchUnique | main.go:149 | at most one match comes first, so the submatches are determined by the line |
| LineRegex.FirstMatchShape | main.go:149 | leftmost-first: the timestamp group is the shortest any match allows; the level group is the shortest given that timestamp; each `\s+` takes the whole white-space run |
| LineRegex.MatchSplitsLine | main.go:149 | a match cuts the line into `[`, timestamp, `]`, separator, `[`, level, `]`, separator and message, with nothing left over |
| LineRegex.AssembledLineMatches | main.go:149 | the converse: for a line built from a timestamp and level with no ']' or newline, non-empty `\s` separators and a message with no newline that does not start with `\s`, the match sits exactly at those parts |
| Parser.Classify | main.go:154-158 | an entry is either structured (`raw` empty) or raw holding the whole line with the other fields empty; which one, and with which submatches, is stated by `ClassifyFollowsFirstMatch` |
| Parser.ClassifyFollowsFirstMatch | main.go:154-158 | a matching line gives an entry with `raw` empty and the three submatches of the first match; a non-matching line gives an entry whose `raw` is the line and whose other fields are empty; there is no partial entry |
| Parser.StructuredEntryRebuildsLine | main.go:154-156 | a structured entry rebuilds its line as `"[" + timestamp + "]" + ws1 + "[" + level + "]" + ws2 + message`, with ws1 and ws2 non-empty runs of `[\t\n\f\r ]` |
| Parser.ClassifyAssembledLine | main.go:154-156 | a line assembled from a timestamp, a level and a message that meet the conditions above classifies back to exactly those three fields |
| Parser.NonBlank | main.go:151-153 | keeps no more lines than there are pieces, and every line it keeps is non-empty |
| Parser.ClassifyEach | main.go:154-159 | one entry per line, the m-th being the classification of the m-th line |
| Parser.Entries | main.go:148-160 | the entries of a body: never more than its number of "\n"-separated pieces; `EntriesFollowLines` states which entry each one is |
| Parser.ParseLines | main.go:148-160 | the loop produces one entry per non-blank trimmed piece, in order, and its result equals `Entries(body)` |
| Parser.NonBlankIsOrderedFilter | main.go:151-153 | the kept lines are the trimmed pieces at strictly ascending positions, and a position is kept exactly when its trimmed piece is not empty |
| Parser.NonBlankCount | main.go:151-153 | the number of lines equals the number of pieces that are not blank after trimming |
| Parser.NonBlankAppend | main.go:151-153 | the filter distributes over concatenation, so each piece is handled independently of the others |
| Parser.BlankPieceContributesNothing | main.go:152-153 | inserting a white-space-only piece anywhere leaves the lines unchanged |
| Parser.EntriesFollowLines | main.go:148-160 | the entries are counted by the non-blank pieces, and the m-th entry is the classification of the m-th non-blank trimmed piece |
| Handler.Marshal | main.go:150-163 | an empty sequence of entries (the nil slice) encodes as `JsonNull`, any other as `JsonArray` of exactly those entries; the result is never `Unset` |
| Handler.FinalRecord | main.go:111-171 | the audit record: the arrival time and address as given; status 200 exactly when the request is a POST whose body was read and encoded; status 405 exactly for a non-POST; 200 exactly when the error message is empty and exactly when a response body is set; the error message is "Method not allowed" for a non-POST, "Could not read request body" when the body read fails and "Error creating JSON response" when encoding fails; the request body is set only for a POST whose body was read, and always then; the response body is the encoding of the entries of the request body |
| Handler.FinalReply | main.go:125-177 | the client receives 200, 405 or 500 |
| Handler.AuditSink.RecordLog | main.go:88-108 | one more insert attempt with this record; the row is stored only when the insert succeeds, and a failure is swallowed |
| Handler.ParseHandler | main.go:111-183 | on every path the sink is called exactly once, with the record in its final state; the reply is the one for that path, and its status matches the record's |
| Scenarios.BracketInsideTimestamp | main.go:149 | `[a] b] [c] d` gives timestamp `a] b`, level `c` and message `d` |
| Scenarios.NoBreakSpaceIsNotSeparator | main.go:149-152 | a no-break space is white space to trimming but not to `\s`, so a line whose groups are separated by one is raw |
| Scenarios.OneGroupIsRaw | main.go:155-158 | a line with no second '[' is a raw entry holding the line |
| Scenarios.MixedBody | main.go:148-160 | a structured line, a plain line, a blank line and a one-group line give three entries in order: structured, raw, raw |
| Scenarios.CarriageReturnIsTrimmed | main.go:148-153 | the body `x\r\ny` splits only at the newline, and trimming removes the carriage return, giving the lines `x` and `y` |
| Scenarios.EmptyPostIsNull | main.go:150-171 | an empty POST body gives no entries, and the record holds status 200, no error and the `null` encoding |
| Scenarios.GetIsRefused | main.go:125-131 | a GET gives status 405 and "Method not allowed", with request and response bodies unset, whatever the body and encoder would have done |

## Left out

- `setupDatabase` and the SQL inside `recordLog` (connection pool, table creation, insert statement): external I/O. The insert is a boolean outcome whose failure is only logged.
- `main`, routing and serving; `http.Error`, the response headers and the bytes written by `w.Write`: transport I/O. Only the status, the error text and the payload are kept, in `Reply`.
- The byte encoding of `encoding/json` (escaping, `omitempty`): library behaviour. `Payload` keeps the value encoded (`null` or the entries); whether encoding fails is a parameter.
- `time.Now()`, `r.RemoteAddr`, `r.Method` and the body read: taken as inputs. `log.Printf` calls: logging only.
- Concurrency across requests and the shared connection pool: outside the handler's own logic.
- Invalid UTF-8 in the body: strings are sequences of Unicode characters, so the byte-level behaviour of `string(body)` on malformed input is not modelled.
- Handler.FinalReply: its contract states only the status range, not the reply's text or bytes: the text written by `http.Error` and the bytes written by `w.Write` are transport output outside the handler's own logic. The status on each path is still fixed, because `ParseHandler` ensures that the reply's status equals the record's status code.
