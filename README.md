# Skotoides middleware: state tags and the interaction log

This project models the two pieces of real logic in the chat relay between a
3D scene and a language-model completion service (`api/chat.js`):

- **The state normalizer** (`extractReplyAndState`). It finds the leftmost
  `[state: …]` tag in the model's reply. The regular expression is
  `/\[state:\s*([^\]]+)\]/i`. The normalizer lower-cases and trims the tag's
  token and looks it up in an 18-entry synonym table. An unknown token passes
  through the lookup unchanged. Any value that is not one of the five
  animation clips (`awakened`, `resonant`, `fractured`, `transcendent`,
  `dormant`) becomes `dormant`. Module `StateTag`, file `state_tag.dfy`.
- **The interaction log** (`logInteraction`, `readJsonl` and the
  `/recent` route). The log is an append-only file with one JSON record per
  line. `readJsonl` scans it from the last line back and skips corrupt lines
  and rows for other players. It stops once `min(limit, 100)` rows are
  collected. The route trims its player query and reverses the result, so
  the caller gets the rows oldest first. Module `InteractionLog`, file
  `interaction_log.dfy`. The log file is the class `LogFile`; its lines are a
  `seq<Line>` field, where `Line = Parsed(Record) | Corrupt`.

Module `JsText` (`js_text.dfy`) holds the JavaScript string primitives the
two use. These are the whitespace class shared by `\s` and
`String.prototype.trim` (all ECMAScript WhiteSpace and LineTerminator code
points), trimming, and lower-casing. Module `Wrappers` holds `Option`, which
stands for `null`/`undefined`.

The regular expression is written out as functions:

- `KeywordAt`: `[state:` starts at `i`, with the letters in any case.
- `CloseFrom`: the first `]` after a given position.
- `MatchesAt`: there is at least one character before that bracket.
- `FindTag`: the leftmost position where `MatchesAt` holds.
- `Capture`: the capture group. The greedy `\s*` hands one character back
  when the tag holds only whitespace.

`readJsonl` is a method with a loop, proved against `Window`. `Window` is
the first `Cap(limit)` rows of `NewestFirst`, which is the backward scan
written as a function. `NewestFirst` is in turn proved equal to the reverse
of `Chronological`, the kept rows in write order.

A filtered read also keeps rows whose `playerId` is missing or empty, and an
empty filter is no filter (`api/chat.js:124`, `api/chat.js:134`).

## Model

| member | source | states |
|---|---|---|
| `StateTag.ExtractReplyAndState` | api/chat.js:21-49 | Total: any reply text yields one of the five clip names |
| `StateTag.Normalize` | api/chat.js:46-48 | After the lookup and the clip guard, the value is always one of the five clips |
| `StateTag.NormalizeIsTableLookup` | api/chat.js:25-47 | Normalizing gives the synonym table's entry for the token, or `dormant` when there is no token or the table lacks it. The pass-through of unknown tokens never lets anything else out |
| `StateTag.SynonymsNameClips` | api/chat.js:25-44 | Every entry of the synonym table names one of the five clips |
| `StateTag.ClipsMapToThemselves` | api/chat.js:39-43 | Every clip name is in the table and maps to itself |
| `StateTag.KeywordAt` | api/chat.js:22 | Definition: the literal `[state:` at a position, compared with the `/i` flag on ASCII letters |
| `StateTag.CloseFrom` | api/chat.js:22 | Definition: the first `]` at or after a position; its contract is `CloseFromIsFirstBracket` |
| `StateTag.MatchesAt` | api/chat.js:22 | Definition: the pattern matches at a position, so the keyword is followed by at least one character before the first `]` |
| `StateTag.FindTag` | api/chat.js:22 | Definition: the first position, from a start, where `MatchesAt` holds; its contract is `FindTagIsLeftmost` |
| `StateTag.CloseFromIsFirstBracket` | api/chat.js:22 | The `[^\]]+\]` part: `CloseFrom` finds the first `]` at or after the position, or none when no `]` follows |
| `StateTag.FindTagIsLeftmost` | api/chat.js:22 | `FindTag` returns the leftmost position where the pattern matches. None means it matches nowhere |
| `StateTag.KeywordStartsWithBracket` | api/chat.js:22 | No match starts at a character other than `[` |
| `StateTag.Region` | api/chat.js:22 | A match's bracketed segment is the text right after the keyword. It is non-empty, holds no `]`, and is followed by `]` |
| `StateTag.Capture` | api/chat.js:22 | The capture group is a non-empty tail of the segment, and only whitespace comes before it |
| `StateTag.RawToken` | api/chat.js:22-23 | Definition: the capture group of the leftmost match, lower-cased and trimmed, or none when nothing matches. `CaptureTrimsLikeRegion` and `LeftmostTagDecides` state what it is |
| `StateTag.Lookup` | api/chat.js:46 | Definition: the table entry for the token, or the token itself when the table lacks it. `NormalizeIsTableLookup` states what survives the clip guard |
| `StateTag.CaptureTrimsLikeRegion` | api/chat.js:22-23 | The token, which is the group lower-cased and trimmed, equals the whole segment lower-cased and trimmed |
| `StateTag.LeftmostTagDecides` | api/chat.js:22-47 | Only the leftmost match counts: its segment, lower-cased and trimmed, decides the clip through the table, whatever follows |
| `StateTag.UnknownTokenIsDormant` | api/chat.js:46-47 | A token the table does not know, the empty token included, yields `dormant` |
| `StateTag.NoTagIsDormant` | api/chat.js:22-47 | Text where the pattern matches nowhere yields `dormant` |
| `StateTag.NoClosingBracketIsDormant` | api/chat.js:22-47 | Text without any `]` yields `dormant` |
| `StateTag.NoOpeningBracketIsDormant` | api/chat.js:22-47 | Text without any `[` yields `dormant` |
| `StateTag.TagAfterPlainText` | api/chat.js:22-23 | A tag after text containing no `[` is found, with `state` in any case, and its word lower-cased and trimmed is the token |
| `StateTag.SynonymTagYieldsItsClip` | api/chat.js:22-47 | Such a tag whose word is a table entry yields exactly that entry's clip, whatever the word's case and surrounding whitespace |
| `StateTag.SereneInCapitalsIsResonant` | api/chat.js:22-26 | `[STATE:   Serene ]` after plain prose yields `resonant` |
| `StateTag.BlankTagIsDormant` | api/chat.js:22-47 | A tag holding only whitespace, such as `[state:   ]`, still matches but yields `dormant` |
| `StateTag.MatchesAtShifted` | api/chat.js:22 | Putting text in front of a reply moves its matches along and creates or destroys none inside it |
| `StateTag.RegionShifted` | api/chat.js:22 | A shifted match keeps its bracketed segment |
| `StateTag.FindTagSkipsUnmatched` | api/chat.js:22 | The search steps over positions where nothing matches |
| `StateTag.FindTagShifted` | api/chat.js:22 | Searching behind leading text finds the rest's leftmost match, shifted by the length of that text |
| `StateTag.UnmatchedPrefixShiftsSearch` | api/chat.js:22 | When no match starts in the leading text, the whole reply's leftmost match is the rest's, shifted |
| `StateTag.ShiftedSearchSameToken` | api/chat.js:22-23 | A leftmost match that is the rest's, shifted, gives the same token |
| `StateTag.UnmatchedPrefixKeepsToken` | api/chat.js:22-23 | Leading text in which no match starts does not change the token |
| `StateTag.UnmatchedPrefixIsIgnored` | api/chat.js:22-47 | Leading text in which no match starts does not change the clip |
| `StateTag.EmptyTagIsSkipped` | api/chat.js:22 | `[state:]` is not a tag: the search moves past it and the rest of the text decides |
| `StateTag.ExtractIgnoresCase` | api/chat.js:22-23 | Lower-casing the whole reply never changes the clip |
| `JsText.IsSpace` | api/chat.js:22-23 | Definition: the ECMAScript WhiteSpace and LineTerminator code points, the class of both `\s` and `trim` |
| `JsText.TrimStart` | api/chat.js:23 | Definition: drops leading whitespace; its contract is `TrimStartDropsLeadingSpace` |
| `JsText.TrimEnd` | api/chat.js:23 | Definition: drops trailing whitespace; its contract is `TrimEndDropsTrailingSpace` |
| `JsText.Trim` | api/chat.js:23 | The result is no longer than the input and neither starts nor ends with whitespace |
| `JsText.TrimIdempotent` | api/chat.js:23 | Trimming twice is trimming once |
| `JsText.Lower` | api/chat.js:23 | Lower-casing keeps the length and maps each character independently |
| `JsText.TrimStartDropsLeadingSpace` | api/chat.js:23 | Trimming the start removes exactly the leading whitespace |
| `JsText.TrimEndDropsTrailingSpace` | api/chat.js:23 | Trimming the end removes exactly the trailing whitespace |
| `JsText.TrimStartSkipsSpaces` | api/chat.js:22-23 | Whitespace put in front of a string is gone after trimming the start |
| `InteractionLog.LogFile.constructor` | api/chat.js:75 | A new log has no file and no lines |
| `InteractionLog.LogFile.LogInteraction` | api/chat.js:76-86 | A successful write creates the file if needed and appends exactly one parsed line holding the record. A failed write is swallowed and leaves the log as it was |
| `InteractionLog.LogFile.ReadJsonl` | api/chat.js:117-129 | The backward scan returns exactly `Window`: the first `min(limit, 100)` kept rows met from the newest line back. It returns none when the file does not exist |
| `InteractionLog.LogFile.Recent` | api/chat.js:132-138 | The route returns the latest `min(limit, 100)` kept rows in write order, oldest first. The default limit is 20, and a blank player query means no filter |
| `InteractionLog.Kept` | api/chat.js:124 | Definition: a row is kept unless a non-empty filter is set, the row has a non-empty `playerId`, and the two differ. `ChronologicalMembers` and `UnfilteredKeepsEveryRow` state its effect on a read |
| `InteractionLog.Chronological` | api/chat.js:119-126 | Definition: the parsed, kept rows in write order, the forward reference for the backward scan |
| `InteractionLog.NewestFirst` | api/chat.js:119-128 | Definition: the backward scan with no bound. `NewestFirstIsReversedLog` ties it to `Chronological` |
| `InteractionLog.Latest` | api/chat.js:135-137 | Definition: the last `min(limit, 100)` kept rows in write order. `LatestIsReversedWindow` ties it to the reversed read |
| `InteractionLog.Cap` | api/chat.js:121 | The row bound is `min(limit, 100)`, and zero when the limit is not positive |
| `InteractionLog.Take` | api/chat.js:121 | Stopping after `n` rows keeps a prefix of at most `n` rows, and everything when fewer exist |
| `InteractionLog.Window` | api/chat.js:117-129 | A read returns at most `min(limit, 100)` rows, and none when `limit <= 0` |
| `InteractionLog.Last` | api/chat.js:135-137 | The latest `n` rows: a suffix of at most `n` rows, and everything when fewer exist |
| `InteractionLog.Reverse` | api/chat.js:137 | Reversal keeps the length and puts the k-th element from the end at position k |
| `InteractionLog.RouteFilter` | api/chat.js:134 | The route's filter is the trimmed query, or none when the query is missing or blank. A filter is never empty and neither starts nor ends with whitespace |
| `InteractionLog.RouteFilterIdempotent` | api/chat.js:134 | Passing the route's filter back in as a query gives the same filter |
| `InteractionLog.ReverseMembers` | api/chat.js:137 | Reversal keeps exactly the same members |
| `InteractionLog.ReverseOfTakeOfReverse` | api/chat.js:121-137 | Reversing the first `n` of a reversed list gives its last `n`, in the original order |
| `InteractionLog.NewestFirstSnoc` | api/chat.js:76-128 | Appending a line puts its row, if it is kept, in front of the backward scan |
| `InteractionLog.ChronologicalAppend` | api/chat.js:76-126 | Appending a line puts its row, if it is kept, at the end of the rows in write order |
| `InteractionLog.NewestFirstIsReversedLog` | api/chat.js:119-128 | The backward scan meets exactly the parsed, kept rows, in reverse write order |
| `InteractionLog.ChronologicalMembers` | api/chat.js:121-126 | A row is read back exactly when some line parses to it and it passes the player filter |
| `InteractionLog.WindowRowsAreLoggedAndKept` | api/chat.js:121-126 | Every row a read returns comes from a parsed line and passes the player filter |
| `InteractionLog.UnfilteredKeepsEveryRow` | api/chat.js:124 | With no filter, or an empty one, every parsed row is read back |
| `InteractionLog.LatestIsReversedWindow` | api/chat.js:135-137 | Reversing the newest-first window gives the latest kept rows in write order |
| `InteractionLog.AppendThenRead` | api/chat.js:76-128 | After an append, a read returns the new row first, followed by one row fewer of the older log. A row the filter rejects leaves the read unchanged |
| `InteractionLog.AppendThenReadOne` | api/chat.js:76-128 | Logging a record and then reading one row with no filter returns exactly that record |
| `InteractionLog.CorruptLineIsInvisible` | api/chat.js:122-126 | A corrupt line anywhere in the file neither appears in a read nor counts toward the limit |
| `InteractionLog.NewestFirstAppend` | api/chat.js:119-128 | The backward scan over older and newer lines reads all the newer lines first, then the older ones |
| `InteractionLog.OlderLinesIgnoredOnceFull` | api/chat.js:121 | The scan stops at the bound: once the newer lines hold enough rows, older lines play no part |
| `InteractionLog.AliceBobAliceScenario` | api/chat.js:121-128 | Rows logged by Alice, Bob and Alice, read with limit 10 for Alice, come back as the third and the first, newest first |

## Left out

- `chatWithOpenAI` and the system prompt: a network call to an external completion service. The reply text is a parameter of the normalizer.
- The HTTP handlers as HTTP: `POST /chat`, the `/logs` admin-key check and file streaming, status codes and `res.json`. These are framework glue. `POST /chat` rejects a missing, empty or non-string message before it calls the model or logs anything (`api/chat.js:92-94`). Its logging step is the `LogInteraction` method here.
- `index.js` (Express setup, CORS, listening): server wiring with no logic.
- Real file I/O. `mkdirSync`, `appendFileSync`, `existsSync` and `readFileSync` become the `present` flag and the `lines` field of `LogFile`. The error report on a failed write is not modelled. A failed write is the `writeSucceeds` parameter.
- `JSON.stringify`/`JSON.parse`: a line is either `Parsed(record)` or `Corrupt`. An appended record is taken to parse back to itself. A line that parses to something other than a record object is not modelled. In the source, a line holding `null` is skipped when a player filter is set (reading `playerId` of `null` throws and the `catch` swallows it) and returned as a row when none is set. A line holding a number is returned as a row either way.
- The file's text form: trimming the whole file, splitting on newlines and dropping empty strings. `lines` holds the non-empty lines that result.
- `Date.now()`: the timestamp is a field of the record passed in.
- `parseInt` of the `limit` query and its NaN result: the route's limit is an optional integer.
- `LowerChar`: lower-cases ASCII letters only, not the full Unicode mapping of `toLowerCase`. The Kelvin sign, which lower-cases to `k`, therefore does not spell `awakened` here.
- Prototype keys of the lookup object, such as `constructor`. In the source the lookup yields a non-string, which the clip guard turns into `dormant`. In the model the token passes through unchanged and the guard also turns it into `dormant`, so the result is the same.
- Concurrent appends and reads of the shared file: the source does not coordinate them.
