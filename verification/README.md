# Sniff-line classifier and UART command queue of the web UI

The browser page of the UART web UI (`UI/static/script.js`) talks to a
serial bridge over a WebSocket. This model covers three parts of it:

- **The classifier**, `parseUARTData`. It takes one line of device output
  such as `[MGMT] Beacon aa:bb:cc:dd:ee:ff SSID: home`. It decides whether
  the line is a frame line, and if so it builds a record with these fields:
  - the frame type;
  - the subtype;
  - the first two MAC addresses;
  - the SSID;
  - the reason code.

  The model states its regular expressions with JavaScript's matching rules:
  - the anchored tag test;
  - the global MAC scan, which resumes behind each match;
  - the leftmost, greedy capture of `SSID:\s*([^\n]+)` and `Reason:\s*(\d+)`;
  - `String.prototype.trim`, `includes`, and the `\s` character set.
- **The sniff store**. Each classified frame is put at the front of a list
  capped at 1000 entries. `sortSniffTable` reorders that list by a column and
  flips the column header's sort mark.
- **The outbound side**:
  - the command a sniff button queues (`handleSniffAction`);
  - the two send helpers (`sendUARTCommand`, `sendUARTData`);
  - one tick of `processCommandQueue`.

  Every 50 ms, a tick sends queued commands while the transport's
  `bufferedAmount` stays below 1024 bytes. It turns to the data queue only
  once the command queue is empty.

The files:

- `wrappers.dfy`: `Option`.
- `jstext.dfy`: the JavaScript string primitives, which are `includes`, `\s`,
  `trim` and the control-character strip applied to incoming messages.
- `classifier.dfy`: `parseUARTData`.
- `sniffstore.dfy`: the store and the sort.
- `outbound.dfy`: the queue and the send helpers.

The transport's `bufferedAmount` is an input to the model. It is a sequence of
readings, one for each check the loops make. The connection state is a
boolean parameter. For the send helpers it is true exactly when
`isConnected && uartConnection` holds (lines 1244 and 1771). `processCommandQueue` tests
`isConnected` alone (line 1215). When `uartConnection` is unset, though,
reading `bufferedAmount` at line 1218 throws before any `shift`. So nothing is
sent and both queues stay as they were, which is the model's disconnected
tick. A send helper returns the `Effect` it has: the message written, or the
refusal.

`script.js` declares several functions more than once. For two top-level
declarations of the same name, the last one is the one every call reaches:

- `processUARTData` is declared three times at top level.
  - Line 453 drops an `[INFO]` prefix, echoes the line, and appends the
    classified record with `push`, with no cap.
  - Line 915 classifies the line, puts the record in front with `unshift`,
    and caps the store at 1000.
  - Line 1791 only echoes the data to the terminal, and it is the one that
    runs. Its only caller, at line 910, passes no argument.

  The store is therefore never filled at run time. The store model follows
  the line 915 declaration as written, because that is the store behaviour
  the sniff table (newest first, bounded) is built around.
- `sendUARTCommand` is declared at lines 62 and 1753. The line 1753
  declaration is modelled. The two behave the same apart from logging.
- `appendToTerminal` (lines 30 and 586) and `updateConnectionStatus` (lines 47
  and 1782) are also declared twice at top level. They are display code
  outside this model.

`processMessage` is different. Its two declarations (lines 416 and 1723) are
local to different functions, so neither shadows the other:

- The one at line 416 is nested in the `DOMContentLoaded` handler, and the
  `onmessage` callback at line 397 calls it.
- The one at line 1723 is nested in `initUART` (line 1687). Nothing in the
  script calls `initUART`, so its message handler, including the
  control-character filter at line 1702, never runs.

The filter that runs is the one at line 395. Both filters use the same
`replace`.

## Model

| member | source | states |
|---|---|---|
| JsText.IndexOf | UI/static/script.js:963-971 | the search behind `includes` (from 0, non-empty keywords): the result is the first position at or after `from` where the pattern occurs, and `None` only when it occurs nowhere from there on |
| JsText.IncludesIff | UI/static/script.js:963-971 | `includes(p)` holds exactly when `p` occurs at some position of the line |
| JsText.Trim | UI/static/script.js:1762 | `trim()`: the result is the input with its leading and trailing JavaScript whitespace removed; it is empty exactly when the input is all whitespace, and otherwise starts and ends with a non-space |
| JsText.TrimKeepsClass | UI/static/script.js:1031 | trimming a capture whose characters all belong to a class leaves characters of that class only |
| JsText.TrimUntouched | UI/static/script.js:1762 | a string with no whitespace at either end is its own trim |
| JsText.TrimIdempotent | UI/static/script.js:1762 | trimming twice is trimming once |
| JsText.RunEnd | UI/static/script.js:1029 | the greedy `\s*` run: it ends at the first character outside the class, and no longer run is possible |
| JsText.RunEndMaximal | UI/static/script.js:1029 | every run of class characters starting at `from` ends at or before `RunEnd` |
| JsText.StripControl | UI/static/script.js:395 | `replace(/[\u0000-\u001F\u007F-\u009F]/g, '')`: the result holds no control character, keeps the other characters in order, and is shorter by exactly the number of control characters removed |
| JsText.StripControlClean | UI/static/script.js:395 | a string without control characters passes the strip unchanged |
| JsText.StripControlIdempotent | UI/static/script.js:395 | stripping an already stripped message changes nothing |
| Classifier.LeadingTag | UI/static/script.js:958-960 | the anchored tag test for `[MGMT]`, `[DATA]`, `[CTRL]` or `[EXT]`: the tag the line starts with, or `None` exactly when it starts with none of the four |
| Classifier.TagsExclusive | UI/static/script.js:958-960 | no line starts with two different tags, so the anchored test names exactly one tag |
| Classifier.Subtype | UI/static/script.js:1001-1019 | the subtype is the name of the first keyword, in priority order, that the line contains, and `""` exactly when it contains none of the nine |
| Classifier.MacScan | UI/static/script.js:1022 | the global MAC match: every reported position holds a 17-character `xx:xx:xx:xx:xx:xx` text, the first is the leftmost match, and none is reported only when there is none |
| Classifier.MacScanResumes | UI/static/script.js:1022 | after a match the scan resumes right behind it, so matches never overlap |
| Classifier.SourceMac | UI/static/script.js:1023-1024 | `source_mac` is the text of the leftmost MAC match, and `""` exactly when the line has none |
| Classifier.DestMac | UI/static/script.js:1023-1025 | `dest_mac` is the text of the leftmost MAC match that starts after the first match ends, and `""` when there is no such match |
| Classifier.Exec | UI/static/script.js:1029 | `exec` of `marker\s*(cls+)`: the match with the leftmost marker, the greedy whitespace run and the greedy capture; `None` exactly when no match exists |
| Classifier.SsidField | UI/static/script.js:1029-1032 | `ssid` is the trimmed capture of the first `SSID:\s*([^\n]+)` match, holds no newline, and is `""` when the pattern does not match |
| Classifier.SsidTrimmed | UI/static/script.js:1031 | a non-empty `ssid` neither starts nor ends with whitespace |
| Classifier.ReasonField | UI/static/script.js:1035-1038 | `reason_code` is the digit capture of the first `Reason:\s*(\d+)` match, and `""` exactly when the pattern does not match |
| Classifier.ParseUartData | UI/static/script.js:949-1050 | a record is returned exactly for lines that start with a tag, mention no status phrase, and have a source address (which `MacPresence` ties to any MAC match) or a non-empty SSID; the record's type is the tag's name and every field is the extraction the source performs |
| Classifier.ReportableIff | UI/static/script.js:1041-1045 | the final check keeps a tagged line's record exactly when it has a source address or a non-empty SSID: a destination address never appears alone, and the reason code never counts |
| Classifier.MacPresence | UI/static/script.js:1023-1025 | the source address is present exactly when the line has a MAC match, and a destination never appears without a source |
| SniffStore.Take | UI/static/script.js:939-941 | `slice(0, n)` keeps the first `min(len, n)` elements, in order |
| SniffStore.Record | UI/static/script.js:936-941 | `unshift` then the cut: the new record comes first, the old entries follow in their old order, and the length is `min(len + 1, 1000)` |
| SniffStore.RecordAllWindow | UI/static/script.js:936-941 | after a batch of records the store is the newest 1000 of "batch newest first, then the old store" |
| SniffStore.EvictsOldest | UI/static/script.js:939-941 | 1001 records into an empty store leave exactly 1000, with the first one recorded evicted |
| SniffStore.ProcessUartData | UI/static/script.js:915-946 | a line that does not classify as a frame leaves the store as it was; a frame's record becomes the first entry, the old entries follow in order, and the length is `min(len + 1, 1000)` |
| SniffStore.ProcessAllRecordsFrames | UI/static/script.js:915-947 | feeding lines to the store records exactly the lines that classify as frames, newest first, capped at 1000; other lines leave no trace |
| SniffStore.StringLessTotal | UI/static/script.js:1095-1097 | JavaScript's `<` on strings is a total order: of two different strings, one is less |
| SniffStore.StringLessTransitive | UI/static/script.js:1095-1097 | JavaScript's `<` on strings is transitive |
| SniffStore.Compare | UI/static/script.js:1094-1098 | the comparator is negative when `a` comes before `b` in the sort direction, positive when `b` does, and zero when neither value is less |
| SniffStore.CompareReverses | UI/static/script.js:1094-1098 | the descending comparator is the ascending one with its sign flipped |
| SniffStore.SortedPairwise | UI/static/script.js:1090-1099 | in a sorted table no later row sorts strictly before an earlier one |
| SniffStore.Sort | UI/static/script.js:1090-1099 | the sorted table is a permutation of the store, and no row sorts strictly before its predecessor |
| SniffStore.SortSniffTable | UI/static/script.js:1073-1099 | every mark but the clicked header's is cleared; the header becomes `desc` exactly when it was `asc` and `asc` otherwise; the store is permuted into the order of the new mark; a missing header changes nothing |
| Outbound.SendUartCommand | UI/static/script.js:1753-1777 | an empty command is refused; otherwise, when connected, exactly `command.trim()` is sent in the `send_command` envelope, with no whitespace left at either end, and when not connected nothing is sent |
| Outbound.SendUartData | UI/static/script.js:1243-1250 | the data is sent unchanged exactly when connected |
| Outbound.SniffCommand | UI/static/script.js:1124-1135 | `stop` queues `stop sniff`, `all` queues `start sniff`, and any other action `a` queues `sniff a`; the command is never empty |
| Outbound.HandleSniffAction | UI/static/script.js:1207 | the action's own command goes to the back of the queue, the queue ahead of it is unchanged, and a connected send of it is never refused |
| Outbound.SniffActionReachesWire | UI/static/script.js:1207-1241 | with a quiet transport, the next tick sends the commands queued earlier in order, then the sniff command trimmed in its envelope, and leaves the queue empty |
| Outbound.Admitted | UI/static/script.js:1217-1225 | the number of items a loop takes: every reading it used was below 1024, and it stopped early only at a reading of 1024 or more |
| Outbound.AdmittedUnique | UI/static/script.js:1217-1225 | only one count meets the loop's stopping rule |
| Outbound.Tick | UI/static/script.js:1214-1241 | when disconnected nothing changes; when connected the command queue loses a prefix taken while the buffer was low; data moves only once the command queue is empty; the sends are the taken commands, then the taken data |
| Outbound.ProcessCommandQueue | UI/static/script.js:1214-1241 | the two loops with `shift`, `break` and the buffer check compute exactly `Tick` |
| Outbound.CommandsBeforeData | UI/static/script.js:1227-1228 | within a tick, no command is sent after a data item |
| Outbound.LowBufferDrainsAll | UI/static/script.js:1214-1241 | with every reading below 1024, one connected tick empties both queues, sending every command and then every data item in queue order |
| Outbound.QuietTickExample | UI/static/script.js:1214-1241 | with commands `a` and `b`, data `x` and a quiet transport, the sends are `a`, `b`, `x` |
| Outbound.BackpressureExample | UI/static/script.js:1214-1241 | when the buffer fills after `a`, the items `b` and `x` stay queued, and the next quiet tick sends them in order |

## Left out

- The WebSocket lifecycle, reconnection, JSON parsing of incoming messages, the `processMessage` router, timers, the DOM, the terminal log text, theme and `localStorage` handling. These are I/O and presentation. The tick is a function of its inputs, and the 50 ms `setInterval` only repeats it.
- `processUARTData` at line 915: its `typeof data === 'object' && data.data` unwrapping is not modelled, and the store takes string lines only. Its `parsedData.type === 'CMD'` check is not modelled: records have no `type` field, so that check never fires.
- The shadowing of `processUARTData` is described in prose and not modelled. The store model follows the line 915 declaration.
- `parseUARTData`'s `typeof data !== 'string'` branch is not modelled, because lines are typed as strings. The `try`/`catch` is not modelled either: nothing in the body can throw on a string.
- `dataQueue` is never filled anywhere in the page. The model keeps the data loop general anyway.
- `handleSniffAction`: setting `window.currentSniffMode` and showing or hiding the sniffing indicator are display-only, so they are not modelled.
- `sendUARTCommand` (line 1753) and `sendUARTData` write to the terminal and the console. Those writes are not modelled; only the message sent, or the refusal, is.
- SniffStore.Sort: the model does not prove stability, which `Array.prototype.sort` guarantees. The contract states sortedness and permutation only.
- SniffStore.SortSniffTable: it inherits the same stability gap. For a column index past the property list every comparison is 0, so the source leaves the order unchanged. The contract promises only a permutation there.
- Classifier.ParseUartData: the second regex `^\[(\w+)\]` at line 987 and its `default: return null` and `else return null` branches (lines 994-998) are not modelled separately. After the anchored tag test passes, `\w+` followed by `]` captures exactly the tag's letters, because `[` and `]` are not word characters. So the switch always takes the tag's case, and those branches cannot be reached.
- JavaScript strings are UTF-16 code-unit sequences. The model uses `seq<char>` of Unicode scalar values, so surrogate pairs and astral characters are not modelled. Every pattern the classifier uses is in the Basic Multilingual Plane. String `<` in the sort is modelled as code-point order, which agrees with JavaScript's code-unit order only on Basic Multilingual Plane text. So a sort on a column holding astral characters, such as an SSID with an emoji, can order rows differently from the page.
- Concrete classifier example lines are not proved as lemmas. Evaluating the classifier on a literal line costs more than the general contracts do. `Classifier.ParseUartData` states every rule those examples illustrate.
