# MCPdef in Dafny

MCPdef is a gateway between an MCP client and its servers. It decides which tools
and resources a client may use, keeps a hash-chained ledger of every decision,
limits the rate of calls, finds and redacts secrets in results, and checks that a
request's headers say what its body does. This project models the parts of it that
decide something hard, and proves what they decide.

| modules | what they model |
|---|---|
| `Globs`, `GlobNames`, `GlobOverlap`, `GlobPaths`, `UriGlobs` | The greedy glob matcher, over characters and over path segments, and the search that says whether two patterns overlap |
| `LogLines`, `BackwardLines`, `Paging`, `PagingRuns`, `LogSearch`, `Following` | The ledger's reader: lines read backward by chunks, pages by cursor, a binary search over bytes, and following a growing file |
| `Canonical`, `Preimage`, `Ledgers`, `LedgerFiles`, `CivilDates` | The ledger: canonical JSON, the hash preimage, the chain and its seal, appending, and the date of a timestamp |
| `Schemas`, `SchemaSoundness`, `Changes`, `PlainSchemas`, `ExactEdits` | The check of an edit against a tool's `outputSchema`, what it promises of a whole edit, and where it is exact |
| `Redaction`, `RedactedTrees`, `Places`, `Results`, `Apartness`, `ResultBlocks`, `ResultRedaction`, `PathEdits`, `CleanResults`, `ResultEdits` | Redaction, masks, removals and cuts of a result, and the text blocks that mirror its structure |
| `Painting`, `Scanning` | The scanner: every rule's spans, the sweep that paints them into one cover, and the fast scan |
| `Utf8`, `Base64`, `Headers`, `ParamHeaders`, `ParamSchemas` | The header codec, the headers a client mirrors, their check at the server, and tool parameters mirrored by annotation |
| `RateLimits` | Token buckets, and the limiter's bucket for each key |
| `Wrappers`, `Text`, `Ordering`, `Json`, `Records` | Results and options, the string operations taken from the standard library, JSON values and ledger records |

Strings are sequences of characters, the ledger file is a sequence of bytes, numbers
in JSON are integers, and an object lists its members: in the order of their names,
and to the depth the source's parser takes, wherever reading back what was written is
relied on (`Json.Storable`). SHA-256 is any function from text to text; that it has no
collision is asked of the records at hand, and that it gives 64 hex digits, where a
theorem needs it. A record's line, a result's JSON text and a double's text are read
and written by functions given as arguments, of which it is asked only that what this
release can write reads back. Where the source changes fields (`Backward`,
`Follow`, `Ledger`, `TokenBucket`, `RateLimiter`) the model is a class; where it loops
over local state, a method with that loop; and where it rewrites a JSON tree through a
reference, a method that gives the new tree.

Places where the code does less than its comments say, each with an input that shows it
and the condition under which the code does what they say:

- **A removal that meets a union.** The schema check judges a removal by the one
  branch of an `anyOf` that fits. The union's own `minProperties` is not looked at,
  so a removal it allows can break the schema (`SchemaSoundness.UnionsCanRefuse`).
  Where the `oneOf`s on the way are firm, as the next item has it, the removal keeps
  the value valid if and only if the unions on the way have room
  (`SchemaSoundness.RemovalIsExact`).
- **A `oneOf` that lets anything through.** The check follows a `oneOf` to the one
  branch that fits, whatever the others say. With `true` among them the value need not
  keep to that branch; should the edit make it do so, it keeps to two, and is refused
  (`SchemaSoundness.OneOfCanRefuse`). What is proved of edits asks that no such `oneOf`
  is on the way, nor one beside an `anyOf`, which the check passes over
  (`SchemaSoundness.Firm`, a predicate of the schema and the path).
- **A `oneOf` with an `enum` in it.** A string is refused for a branch with such a
  keyword, unread. That is safe for the branch, but counted among a `oneOf`'s branches
  it lets a string through that keeps to two (`SchemaSoundness.ListedCanRefuse`). Where
  no such keyword stands in a branch of a `oneOf`, a string allowed is valid
  (`SchemaSoundness.AllowedIsValid`).
- **Appending after a line with no newline.** A ledger whose last line was left
  without its newline takes the next record onto that line
  (`LedgerFiles.RunsOnTheTail`). The count of records grows by one if and only if what
  follows the last newline is white (`LedgerFiles.AppendCountsOne`).
- **A read that fails on a corrupt line.** `Follow::read` has by then moved past the
  line, and the records it had read before it are not given
  (`Following.GoodLineIsLost`). A read fails if and only if one of the next lines, as
  many as were asked for, is no record (`Following.Follow.Read`); what a whole run gave
  is exactly the lines it passed if and only if no read failed
  (`Following.FollowingIsExact`).
- **A method name in a header is not encoded.** A request passes its own mirrored
  headers exactly when, among other things, its method can stand in a header as it is
  (`Headers.MirroredIsAccepted`, and `Headers.MethodIsRefused` for one that cannot).
- **Keys of a result that is no object.** The redaction checks keys only when the
  result is a JSON object (`ResultRedaction.Redact`); an array comes through with its
  keys as they were (`ResultRedaction.ArrayKeysAreLeft`).
- **A cut that leaves a text as it was.** `truncate` reports a change exactly when some
  block is over, and has made one exactly when some block is not its own cut
  (`ResultEdits.Truncate`). A block can be over and its own cut
  (`ResultEdits.OwnCutIsReported`).

## Model

| member | source | states |
|---|---|---|
| Globs.LeftmostIsEnough | crates/mcpdef-policy/src/glob.rs:315-341 | If what follows a wildcard matches at all, taking every middle run at its leftmost place succeeds: the exchange argument, for characters and segments alike |
| Globs.GreedyIsSound | crates/mcpdef-policy/src/glob.rs:315-341 | A greedy success is a match in the recursive meaning of the pattern |
| Globs.AnchoredGreedyIsRight | crates/mcpdef-policy/src/glob.rs:29-55 | First run anchored, last run anchored without overlapping it, the rest leftmost: exactly the recursive meaning, both directions |
| GlobNames.Names | crates/mcpdef-policy/src/glob.rs:36-55 | The matcher, for every pattern and name, answers the recursive meaning in which `*` takes any run and every other character itself |
| GlobNames.InOrder | crates/mcpdef-policy/src/glob.rs:46-54 | Slicing the rest of the name piece by piece is the leftmost search in the whole name |
| GlobNames.MatchesByPieces | crates/mcpdef-policy/src/glob.rs:36-55 | Splitting on `*` and dropping empty pieces loses nothing: the pieces in order are the pattern |
| GlobOverlap.PatternsOverlap | crates/mcpdef-policy/src/glob.rs:243-281 | The worklist search over pairs of positions terminates, and is true exactly when some name, non-empty when asked, matches both patterns |
| GlobOverlap.AliveBackward | crates/mcpdef-policy/src/glob.rs:268-278 | What can be finished from a state that is pushed can be finished from the state that pushed it |
| GlobOverlap.ClosedIsDead | crates/mcpdef-policy/src/glob.rs:256-280 | A set of states closed under pushing, with no final one, has no common name: completeness |
| GlobOverlap.SlotIsOwn | crates/mcpdef-policy/src/glob.rs:256-266 | No two pairs of positions share a slot of the seen-table |
| GlobPaths.Runs | crates/mcpdef-policy/src/glob.rs:290-301 | Splitting a path pattern at each `**`, joined again by `flat`, gives the pattern back, and no run holds a `**` |
| GlobPaths.FindLeftmost | crates/mcpdef-policy/src/glob.rs:350-360 | Where a run first matches wholly within the segments given |
| GlobPaths.PathRunsMatch | crates/mcpdef-policy/src/glob.rs:315-341 | The greedy path matcher answers the recursive meaning in which `**` takes any number of segments |
| GlobPaths.SegmentsOverlap | crates/mcpdef-policy/src/glob.rs:232-241 | True exactly when some segment, empty or not, is taken by both segment patterns |
| GlobPaths.PathsOverlap | crates/mcpdef-policy/src/glob.rs:199-230 | True exactly when some sequence of segments matches both path patterns |
| GlobPaths.PathClosedIsDead | crates/mcpdef-policy/src/glob.rs:199-230 | Completeness of the path search, where a segment taken by two `**`s at once can be dropped |
| UriGlobs.Compile | crates/mcpdef-policy/src/glob.rs:93-110 | The compiled pattern takes exactly the URIs whose prefix, query, fragment and segments its parts match |
| UriGlobs.UriMatches | crates/mcpdef-policy/src/glob.rs:117-138 | Matching answers what the compiled pattern takes |
| UriGlobs.UriOverlaps | crates/mcpdef-policy/src/glob.rs:140-158 | True exactly when some URI, one segment or more with no slash in any, is taken by both patterns |
| UriGlobs.PathsMeetInAUri | crates/mcpdef-policy/src/glob.rs:140-158 | Paths that meet at all meet in one that a URI can have: at least one segment, and no slash within one |
| LogLines.MemberIsLine | crates/mcpdef-audit/src/read.rs:303-334 | The lines a file is split into are exactly the complete, non-blank stretches between newlines |
| LogLines.LinesGrow | crates/mcpdef-audit/src/read.rs:177-244 | Appending leaves the lines before a line's start as they were |
| BackwardLines.FindCompleteEnd | crates/mcpdef-audit/src/read.rs:283-299 | Reading back by chunks of any size finds where the complete lines end |
| BackwardLines.Backward.AtEnd | crates/mcpdef-audit/src/read.rs:383-399 | Starts at the end of the complete lines, with the buffer holding what follows `start` |
| BackwardLines.Backward.Fill | crates/mcpdef-audit/src/read.rs:402-412 | Puts the chunk before `start` in front of the buffer |
| BackwardLines.Backward.Prev | crates/mcpdef-audit/src/read.rs:414-442 | Gives the lines before `end` one by one, last first, for any chunk size: what was left is what is left and the line given |
| Paging.CursorRoundTrip | crates/mcpdef-audit/src/read.rs:65-92 | A cursor handed back as text is the cursor given |
| Records.MatchesMeans | crates/mcpdef-audit/src/read.rs:44-58 | A filter wants a record exactly when each part of it that is set is what the record has; a record without a kind is a call; times start at `since` and stop short of `until` |
| Paging.ReadPage | crates/mcpdef-audit/src/read.rs:110-158 | A page is the wanted among the newest lines, read on until it has enough or its budget is spent, and gives a cursor unless nothing older can be wanted; a cursor is refused if and only if it is at no line's start or the newest line below it is numbered as high, and a corrupt line is an error if and only if the page gets to it |
| PagingRuns.PageLeaves | crates/mcpdef-audit/src/read.rs:132-157 | A page with what its cursor still reaches is all that was wanted; without a cursor nothing wanted is older |
| PagingRuns.CursorGoesBack | crates/mcpdef-audit/src/read.rs:132-157 | A page that gives a cursor has looked at something, and the cursor is below where the page began |
| PagingRuns.PagingEnds | crates/mcpdef-audit/src/read.rs:110-158 | So following cursors ends: a run has at most one page more than its first page had lines |
| PagingRuns.CursorStaysGood | crates/mcpdef-audit/src/read.rs:264-280 | However the file has grown, a page's cursor is at a line's start, over the same older lines, and is not refused |
| PagingRuns.PagingIsReverseAndFilter | crates/mcpdef-audit/src/read.rs:110-158 | Following cursors to the end, with any limits and budgets of at least one and anything appended meanwhile, gives each wanted record of the first page's lines exactly once, newest first |
| LogSearch.LineFrom | crates/mcpdef-audit/src/read.rs:303-334 | The first complete, non-blank line at or after any byte, even one inside a line, and where the next one starts |
| LogSearch.FirstFrom | crates/mcpdef-audit/src/read.rs:336-356 | Where numbers increase down the file, the binary search gives the start of the first line numbered at least the target, or the end |
| LogSearch.FindRecord | crates/mcpdef-audit/src/read.rs:161-174 | Finds the record numbered so if and only if the ledger holds one |
| Following.Follow.After | crates/mcpdef-audit/src/read.rs:194-205 | Starts at the first record numbered above the one given, or at the end of the complete lines |
| Following.Follow.Read | crates/mcpdef-audit/src/read.rs:207-244 | Gives exactly the next lines, stops short of the number asked only where no line is complete, and leaves the offset at a line's start; fails if and only if one of those lines is no record, past which it has then moved; a shrunken file is an error |
| Following.PassedIsExact | crates/mcpdef-audit/src/read.rs:176-244 | Over any interleaving of appends, part of a line at a time or not, and reads, failed ones among them, the lines passed are exactly those between where it began and where it is |
| Following.FollowingIsExact | crates/mcpdef-audit/src/read.rs:176-244 | Over any such run, what was given is exactly the lines between where it began and where it is, if and only if no read failed |
| Following.GoodLineIsLost | crates/mcpdef-audit/src/read.rs:207-244 | A file of a good line and a bad one, whose good record a read passes and does not give |
| Following.ShortReadIsAll | crates/mcpdef-audit/src/read.rs:207-244 | A read that gives fewer than asked has given all there is |
| Canonical.WriteCanonical | crates/mcpdef-audit/src/lib.rs:254-288 | The writer with its buffer appends the canonical text of the value |
| Canonical.CanonPins | crates/mcpdef-audit/src/lib.rs:260-288 | Two values whose canonical texts agree as far as they go, up to a delimiter, are the same value: injective and prefix-free |
| Canonical.SameTextForSame | crates/mcpdef-audit/src/lib.rs:260-288 | The order an object's members were inserted in does not show |
| Canonical.CanonIsTheValue | crates/mcpdef-audit/src/lib.rs:254-288 | Canonical texts are equal if and only if the values are the same |
| Canonical.CanonIsPlain | crates/mcpdef-audit/src/lib.rs:247-288 | No canonical text holds a control character, the field separator among them |
| Canonical.EscapeIs | crates/mcpdef-audit/src/lib.rs:247-252 | Each character of a string goes as section 7 of RFC 8259 writes it, in the shortest escape |
| Canonical.ArrayText | crates/mcpdef-audit/src/lib.rs:264-273 | An array is its items' texts in brackets, a comma between each two |
| Canonical.ObjectText | crates/mcpdef-audit/src/lib.rs:274-285 | An object is its members' names and texts in braces, in the order of their names |
| Ordering.BeforeIs | crates/mcpdef-audit/src/lib.rs:274-276 | That order is by code point: a text comes before those it starts, and else goes by the first character that differs |
| Preimage.EncodingPins | crates/mcpdef-audit/src/lib.rs:156-183 | Preimages are equal if and only if the fields are, when neither record holds a separator in a field, or one holds none and the links are as long as hashes |
| Preimage.EncodingIsInjective | crates/mcpdef-audit/src/lib.rs:156-232 | Preimages of two such records are equal if and only if the records are the same, up to an absent or empty method, tool or rule, null later members, and the order of members |
| Preimage.EncodingSpelled | crates/mcpdef-audit/src/lib.rs:156-232 | The preimage of any record, spelled out: its ten fields in order, U+001F between each two, then one more and the canonical text of the later members if there are any |
| Preimage.SameEncoding | crates/mcpdef-audit/src/lib.rs:156-232 | The same record has the same preimage, whatever its fields hold |
| Preimage.SeparatorsConfuse | crates/mcpdef-audit/src/lib.rs:146-153 | Two different records with one preimage, when each holds a separator in a field |
| Ledgers.VerifyMarked | crates/mcpdef-audit/src/lib.rs:825-897 | One pass, over a file whose lines are all records, reports the count, the head, the first record where the chain breaks, the records holding a separator, and the hash of the first record with the marked number; else the first line that is none |
| Ledgers.VerifyAgainst | crates/mcpdef-audit/src/lib.rs:899-913 | Reports no break if and only if the chain holds and its head and count are those sealed, and else where |
| Ledgers.SealPinsHistory | crates/mcpdef-audit/src/lib.rs:825-913 | Two verified ledgers with one head and one count agree record by record, unless two of their own encodings collide |
| Ledgers.SealAcceptsExactly | crates/mcpdef-audit/src/lib.rs:825-913 | Of a ledger that was appended to and sealed, the seal accepts a file's records if and only if they are the same records under the same hashes, unless two of their own encodings collide |
| Ledgers.BlankIsWhite | crates/mcpdef-audit/src/lib.rs:544-550 | A line blank in ASCII, as the reader by bytes has it, trims to nothing, as the reader by lines has it; the latter skips more |
| Ledgers.WhiteCharsAre | crates/mcpdef-audit/src/lib.rs:544-550 | What trims away is Unicode's White_Space |
| LedgerFiles.Ledger.Open | crates/mcpdef-audit/src/lib.rs:537-570 | Opens exactly when every line is a record, resuming from the last one's hash and the count; else names the first line that is none |
| LedgerFiles.Ledger.Append | crates/mcpdef-audit/src/lib.rs:595-661 | Writes one line, links it to the head and counts on; the record says what was asked, what was decided and by which rule, and no field of it holds the separator |
| LedgerFiles.DraftIsStamped | crates/mcpdef-audit/src/lib.rs:595-648 | Whatever an entry holds, the record made of it has no separator in its fields |
| LedgerFiles.DraftTells | crates/mcpdef-audit/src/lib.rs:595-648 | The record, field by field, from the entry: `allow` or `deny` as decided, a denial's own rule, the texts as they were but for separators, and all else as asked |
| LedgerFiles.AppendExtends | crates/mcpdef-audit/src/lib.rs:595-661 | To a file whose last line is whole, appending adds exactly the record, and an intact chain stays intact, so long as what this release can write reads back |
| LedgerFiles.AppendCountsOne | crates/mcpdef-audit/src/lib.rs:537-570 | A line appended adds one record if and only if what follows the last newline is white |
| LedgerFiles.RunsOnTheTail | crates/mcpdef-audit/src/lib.rs:595-661 | A file with one line and no newline at its end, and a record that runs on from it: still one line |
| LedgerFiles.AppendedLedgerVerifies | crates/mcpdef-audit/src/lib.rs:527-661 | After any run of appends the file holds the records there were and those appended, each saying what was asked, and its chain verifies |
| CivilDates.CivilDateIsRight | crates/mcpdef-audit/src/lib.rs:1261-1279 | For every day count, the year, month and day computed are those of the Gregorian calendar counted a day at a time from 1970 |
| CivilDates.FieldsAreTheInstant | crates/mcpdef-audit/src/lib.rs:1261-1279 | The fields are in range and recombine to the timestamp |
| CivilDates.TextShowsTheInstant | crates/mcpdef-audit/src/lib.rs:1261-1279 | Up to the year 9999 the text is the 24 characters of an RFC 3339 date-time, and each part reads as its field |
| SchemaSoundness.AllowedIsValid | crates/mcpdef-policy/src/result.rs:949-1001 | A string the check allows is valid, `oneOf` and `anyOf` included, whatever the schema says further of strings by keywords it does not hold, so long as no such keyword stands in a branch of a `oneOf` |
| SchemaSoundness.VerdictIsExact | crates/mcpdef-policy/src/result.rs:949-1001 | Where no such keyword stands at all, a verdict of the check is right both ways: allowed if and only if valid |
| SchemaSoundness.ReplacementKeepsValid | crates/mcpdef-policy/src/result.rs:859-1001 | A string replaced, at any path, by one the check allows there keeps the whole value valid, so long as the unions on the way are firm and no `oneOf` at its end holds a keyword the check does not read |
| SchemaSoundness.RemovalIsExact | crates/mcpdef-policy/src/result.rs:1003-1021 | A key taken out where the check allows it, the unions on the way being firm, keeps the whole value valid if and only if those unions have room |
| SchemaSoundness.RemovalWithoutUnions | crates/mcpdef-policy/src/result.rs:1003-1021 | Where no union is met, a removal the check allows always keeps the value valid |
| SchemaSoundness.UnionsCanRefuse | crates/mcpdef-policy/src/result.rs:859-899 | A schema, a value and a removal the check allows that makes the value invalid |
| SchemaSoundness.OneOfCanRefuse | crates/mcpdef-policy/src/result.rs:859-899 | A schema with `true` in a `oneOf`, a value and a removal the check allows that makes the value invalid |
| SchemaSoundness.ListedCanRefuse | crates/mcpdef-policy/src/result.rs:949-1001 | A `oneOf` of a string and an `enum`, under which the check allows a string that is listed and so keeps to both |
| Changes.Checked | crates/mcpdef-policy/src/result.rs:752-793 | True exactly when there is no schema or every change is allowed, judging a removal by the keys left once the whole edit is done |
| Changes.KeysShrink | crates/mcpdef-policy/src/result.rs:622-671 | The rest of an edit never adds a key: what is left at its end is no more than what was left on the way |
| Changes.CheckedEditKeepsValid | crates/mcpdef-policy/src/result.rs:752-793 | A whole edit, its changes all allowed by what is left at its end, keeps a valid structure valid, so long as the unions its changes meet are firm and have room for its removals |
| Changes.RoomWithoutUnionsMet | crates/mcpdef-policy/src/result.rs:752-793 | That is so where removals meet no union and other changes none that is not firm |
| PlainSchemas.PlainEditIsExact | crates/mcpdef-policy/src/result.rs:752-1021 | Where the schema is plain (no union, reference or other keyword the check stops at, no `patternProperties`, no `enum` or the like where a string changes, no `dependentRequired` where a key goes), an edit of a valid structure is allowed if and only if it leaves it valid |
| ExactEdits.AllowedIsFitting | crates/mcpdef-policy/src/result.rs:135-160 | So with each kind of edit of a result: there it is refused only for breaking the schema |
| ExactEdits.RedactionIsExact | crates/mcpdef-policy/src/result.rs:81-121 | And so with the redaction of a whole result |
| Redaction.MaskedIsWoven | crates/mcpdef-policy/src/result.rs:382-390 | Replacing hits from the last to the first gives the text with a token for each hit and nothing else changed |
| Redaction.Rounds | crates/mcpdef-policy/src/result.rs:363-405 | A text that comes through holds nothing the detector finds, and is the text it was if and only if that held nothing either |
| Redaction.RedactedIs | crates/mcpdef-policy/src/result.rs:363-405 | A text is redacted to another if and only if at most three rounds get from the one to the other, each replacing every hit of a text that has only secrets, the last leaving none |
| Redaction.HitsAre | crates/mcpdef-policy/src/result.rs:363-381 | When strict, all that is found counts; else what is secret, in its order |
| Redaction.RedactText | crates/mcpdef-policy/src/result.rs:363-405 | The loop computes those rounds, and reports a change exactly when the text differs |
| RedactedTrees.EachString | crates/mcpdef-policy/src/result.rs:408-441 | Succeeds exactly when every string entered can be redacted; then each is, everything else stays, and the changes reported are exactly the strings that differ, with their paths |
| RedactedTrees.FollowsIsClean | crates/mcpdef-policy/src/result.rs:408-441 | No string the walk entered still holds anything |
| RedactedTrees.ChangesAreMade | crates/mcpdef-policy/src/result.rs:495-501 | The changes reported, made in turn, turn the value that was into the value that is |
| RedactedTrees.EachKey | crates/mcpdef-policy/src/result.rs:533-563 | Passes exactly when no key of any object holds anything |
| Results.Blocks | crates/mcpdef-policy/src/result.rs:291-306 | Every text block of a result, once each |
| Results.TextAtIs | crates/mcpdef-policy/src/result.rs:243-290 | Where each kind of block has its text |
| Results.Mirrors | crates/mcpdef-policy/src/result.rs:310-324 | Exactly the content blocks whose text parses to the structure |
| Apartness.PutOutside | crates/mcpdef-policy/src/result.rs:443-467 | Writing a place that has a pass of its own changes nothing that has not |
| Apartness.FollowsKeepsApart | crates/mcpdef-policy/src/result.rs:443-467 | The pass over the other strings leaves every place that is apart as it was |
| ResultBlocks.WriteMirrors | crates/mcpdef-policy/src/result.rs:327-336 | Every mirror then parses to the structure, and nothing else has changed |
| ResultRedaction.RedactBlock | crates/mcpdef-policy/src/result.rs:510-523 | A block that holds JSON has its strings redacted and still holds JSON of the same shape; any other is redacted as text |
| ResultRedaction.RedactBlocks | crates/mcpdef-policy/src/result.rs:503-524 | Every block but the mirrors is redacted, the mirrors and all else are left |
| ResultRedaction.Redact | crates/mcpdef-policy/src/result.rs:473-530 | Succeeds exactly when no key holds anything and every string redacted comes clean; then the structure, the blocks and every other string but base64 are each as their own redaction leaves them, and nothing else has changed |
| ResultRedaction.ArrayKeysAreLeft | crates/mcpdef-policy/src/result.rs:473-486 | An array of one object, whose key holds something, is redacted to itself |
| PathEdits.PlacesAreNamed | crates/mcpdef-policy/src/result.rs:675-703 | Only places the path names are found |
| PathEdits.NamedAreListed | crates/mcpdef-policy/src/result.rs:675-703 | Every place the path names is found |
| PathEdits.EditAt | crates/mcpdef-policy/src/result.rs:622-671 | A mask fails exactly when some place named holds what is neither a string nor null; done, every place holds the token, null or nothing, or its key is gone, nowhere else has changed, and the changes reported are those made |
| ResultEdits.EditPath | crates/mcpdef-policy/src/result.rs:591-618 | A path edit of a result does so in the structure and in every block of JSON that is no mirror, can be made exactly when it can in each, and reports a change exactly when there is one |
| ResultEdits.FittingIsMost | crates/mcpdef-policy/src/result.rs:734-739 | A cut keeps as many characters as fit in the bytes allowed, and no fewer |
| ResultEdits.CutTextIs | crates/mcpdef-policy/src/result.rs:725-747 | A text that fits stays; of any other the longest front that fits is left, and the two lengths in bytes |
| ResultEdits.MaskIsToken | crates/mcpdef-policy/src/result.rs:715-721 | A mask is the token of the name shown |
| ResultEdits.Truncate | crates/mcpdef-policy/src/result.rs:725-747 | Every block but the mirrors is cut, and nothing else has changed; a change is reported if and only if some block was over, and made if and only if some block was not its own cut |
| ResultEdits.OwnCutIsReported | crates/mcpdef-policy/src/result.rs:725-747 | A text of 42 bytes that is its own cut to none: a change is reported, and none is made |
| ResultEdits.Plain | crates/mcpdef-policy/src/result.rs:715-721 | A mask's name holds no quote, backslash or control character, and a name without them is left as it is |
| ResultEdits.PlainKeepsOrder | crates/mcpdef-policy/src/result.rs:715-721 | What is left of two stretches of a name is what is left of each, in order; with `PlainOfOne` that is every other character, once and in its place |
| ResultEdits.ApplyOne | crates/mcpdef-policy/src/result.rs:135-160 | An edit succeeds if and only if there is a detector where one is needed, the edit can be made, and the schema allows its changes; then it leaves what it should, and each error is named with its cause |
| ResultEdits.EditKeepsFit | crates/mcpdef-policy/src/result.rs:752-793 | An edit keeps a structure that fits its schema fitting it, so long as the unions its changes meet are firm and have room |
| ResultEdits.EditWithoutUnionsHasRoom | crates/mcpdef-policy/src/result.rs:752-793 | That is so for an edit whose removals meet no union and its other changes none that is not firm |
| ResultEdits.ApplyEdits | crates/mcpdef-policy/src/result.rs:123-164 | Succeeds if and only if every edit in turn does, each made to what the one before it left; every original mirror then parses to the structure there is, a change is reported if and only if some edit reports one, and a structure that fitted its schema still fits it so long as the unions met have room |
| ResultEdits.RedactResult | crates/mcpdef-policy/src/result.rs:81-121 | A result passes if and only if its strings can be redacted, the schema allows the changes, and nothing is found in it written out; nothing the detector finds is then in any key, in the structure, in a block that is no mirror, or at any other path but those of base64; its mirrors follow the structure, and a structure that fitted its schema still does so long as the unions met are firm |
| Painting.Paint | crates/mcpdef-inspect/src/lib.rs:610-647 | Every place is in the cover if and only if some span holds it, and then under the rule tried first among those; the cover is sorted, disjoint, never empty, and no two matches of a rule touch |
| Painting.NetIsHolding | crates/mcpdef-inspect/src/lib.rs:616-624 | Edges opened less closed up to a place count the spans that hold it |
| Painting.NeverNegative | crates/mcpdef-inspect/src/lib.rs:620-628 | With opening sorted before closing at one place, no count goes below zero |
| Scanning.Occurrences | crates/mcpdef-inspect/src/lib.rs:591-608 | Every start of a needle, overlapping ones included, in order; none of an empty one |
| Scanning.RunEnd | crates/mcpdef-inspect/src/lib.rs:583-589 | Where the run of allowed characters ends |
| Scanning.HeadersApart | crates/mcpdef-inspect/src/lib.rs:518-518 | No `-----BEGIN` starts within another |
| Scanning.BlockEnd | crates/mcpdef-inspect/src/lib.rs:544-574 | A block ends in the text, past its header and at or before the next one |
| Scanning.CutIsBlock | crates/mcpdef-inspect/src/lib.rs:544-574 | Where a block ends, by what stands in the text: at the next header where no `-----END` comes before that; else past the longest run of capitals, digits and spaces after the first `-----END`, and past five dashes if they follow, but no further than the next header |
| Scanning.PemBlocks | crates/mcpdef-inspect/src/lib.rs:542-561 | Exactly those blocks, one for each header, in order, none reaching the next |
| Scanning.PrivateKeys | crates/mcpdef-inspect/src/lib.rs:522-540 | Exactly the blocks that hold the words, or all of them when none does; some exactly when the text holds both markers |
| Scanning.PrivateKeyFires | crates/mcpdef-inspect/src/lib.rs:522-540 | The rule has a span if and only if the text holds `-----BEGIN` and `PRIVATE KEY` |
| Scanning.Spans | crates/mcpdef-inspect/src/lib.rs:437-506 | Exactly the spans of a rule, for each of the rules |
| Scanning.Scan | crates/mcpdef-inspect/src/lib.rs:387-397 | Of the rules with a span, the one tried first; none when none has one |
| Scanning.FindAll | crates/mcpdef-inspect/src/lib.rs:399-435 | A tidy cover that gives each place to the rule tried first among those with a span there |
| Scanning.KeysAreCovered | crates/mcpdef-inspect/src/lib.rs:399-435 | Every place of a key, from its header through its trailer, is in a match under the rule for keys, and no other place is |
| Scanning.AwsKeyFires | crates/mcpdef-inspect/src/lib.rs:262-314 | The rule fires exactly when `AKIA` or `ASIA` has sixteen capitals or digits after it |
| Scanning.SlackTokenFires | crates/mcpdef-inspect/src/lib.rs:262-314 | It fires exactly when one of the six prefixes has ten letters, digits or dashes after it |
| Scanning.GithubTokenFires | crates/mcpdef-inspect/src/lib.rs:262-314 | It fires exactly when one of the five prefixes has twenty letters or digits after it, or `github_pat_` twenty of those or `_` |
| Scanning.StripeKeyFires | crates/mcpdef-inspect/src/lib.rs:262-314 | It fires exactly when `sk_live_` has sixteen letters or digits after it |
| Scanning.SecretIsWhole | crates/mcpdef-inspect/src/lib.rs:437-455 | An operator's secret is found with the whole run of letters, digits and `-_.+/=` after it |
| Scanning.InjectionFires | crates/mcpdef-inspect/src/lib.rs:437-506 | A built-in injection rule fires exactly when one of its phrases stands in the text, in letters of either case |
| Scanning.ScanIsFirstMatch | crates/mcpdef-inspect/src/lib.rs:387-435 | The fast scan finds the rule of the match tried first, and nothing if and only if there is no match |
| Scanning.SecretsComeFirst | crates/mcpdef-inspect/src/lib.rs:127-181 | An injection is found only in a text that holds no secret |
| Utf8.RoundTrip | crates/mcpdef-core/src/wire.rs:853-889 | UTF-8 decodes to the text it encodes |
| Utf8.IsCanonical | crates/mcpdef-core/src/wire.rs:884-887 | Only the encoding of a text decodes |
| Utf8.Examples | crates/mcpdef-core/src/wire.rs:853-863 | Examples of section 7 of RFC 3629 |
| Base64.RoundTrip | crates/mcpdef-core/src/wire.rs:853-863 | Base64 (section 4 of RFC 4648) decodes to the bytes it encodes |
| Base64.IsCanonical | crates/mcpdef-core/src/wire.rs:878-882 | Only the padded encoding with no bits left over decodes |
| Base64.TestVectors | crates/mcpdef-core/src/wire.rs:853-863 | Vectors of section 10 of RFC 4648 |
| Headers.CodecRoundTrip | crates/mcpdef-core/src/wire.rs:843-889 | Every string decodes from its own encoding, those that look like the sentinel included |
| Headers.EncodingIsSafe | crates/mcpdef-core/src/wire.rs:832-863 | Every encoding may stand in a header, with no whitespace first or last |
| Headers.EncodingSpelled | crates/mcpdef-core/src/wire.rs:832-863 | A value goes out as itself when it prints, has no white space at an end and does not look like an encoding; else as the base64 of its UTF-8 between the marks |
| Headers.DecodeIsExact | crates/mcpdef-core/src/wire.rs:871-889 | A header decodes to a value exactly when it is the value, unmarked, or its one encoding |
| Headers.ValidateIsExact | crates/mcpdef-core/src/wire.rs:743-823 | A request gets through if and only if its version is served and each header says what its body does, in the words of the headers and members themselves; what is trusted is the body's |
| Headers.OtherErrorIs | crates/mcpdef-core/src/wire.rs:743-823 | The one error that is no mismatch is for a version that header and body agree on and that is not served |
| Headers.BodyIsRead | crates/mcpdef-core/src/wire.rs:265-312 | What the code takes from a body is its version under `_meta`, its method, and `name` or `uri` for the methods that have one |
| Headers.MirroredIsAccepted | crates/mcpdef-core/src/wire.rs:316-331 | A request's own mirrored headers are accepted if and only if its version is served, it has a method, both can stand in a header, and it names what its method needs named |
| Headers.MirroredMeans | crates/mcpdef-core/src/wire.rs:316-331 | The headers a client sends and no others; none for a legacy request |
| Headers.MethodIsRefused | crates/mcpdef-core/src/wire.rs:316-331 | A method named outside ASCII: its request's own mirrored headers are refused |
| ParamHeaders.ValidateParamHeaders | crates/mcpdef-core/src/wire.rs:1202-1256 | Passes if and only if, for every annotation, the header says the body's string, `true` or `false` for its boolean, or its integer, and there is none where the body has nothing a header can carry |
| ParamHeaders.AgreementMeans | crates/mcpdef-core/src/wire.rs:1202-1286 | What it takes for header and body to agree on one annotation, for each kind of value |
| ParamHeaders.SentMeans | crates/mcpdef-core/src/wire.rs:1155-1172 | What is sent: for a call to a tool, each annotation's string, word or decimal in its encoding under its own name, and nothing else |
| ParamHeaders.ParsedIsInt | crates/mcpdef-core/src/wire.rs:1270-1286 | An integer in a header is digits, with a sign or not, within 128 bits |
| ParamHeaders.IntRoundTrip | crates/mcpdef-core/src/wire.rs:938-952 | An integer sent in decimal reads back as itself |
| ParamHeaders.SentIsSame | crates/mcpdef-core/src/wire.rs:1259-1286 | What goes out for a value is header-safe, decodes, and compares as the same value |
| ParamHeaders.SentFor | crates/mcpdef-core/src/wire.rs:1155-1172 | Looking up an annotation's header among those sent gives its own value |
| ParamHeaders.ParamsAreAccepted | crates/mcpdef-core/src/wire.rs:1155-1256 | A modern call's own parameter headers agree with its body, for any annotations with distinct header names |
| ParamHeaders.AcceptedStringIsTheBodys | crates/mcpdef-core/src/wire.rs:1202-1266 | A header accepted for a string says that string, letter for letter |
| ParamSchemas.WalkSchema | crates/mcpdef-core/src/wire.rs:1043-1135 | The walk judges every subschema it visits in turn, and stops at the first bad one |
| ParamSchemas.ParamHeadersOf | crates/mcpdef-core/src/wire.rs:1004-1022 | Accepted annotations have distinct header names, ignoring case; a repeat is refused, naming it |
| ParamSchemas.AnnotationsAreExact | crates/mcpdef-core/src/wire.rs:1004-1135 | An accepted schema's annotations are exactly those reached through `properties` alone, each a field name on a string, integer or boolean, and there are none anywhere else |
| ParamSchemas.WalkGoes | crates/mcpdef-core/src/wire.rs:1087-1135 | Where the walk goes from a schema: down each property, and by every other keyword but those that hold instances |
| ParamSchemas.JudgeMeans | crates/mcpdef-core/src/wire.rs:1043-1086 | A schema without an annotation is passed over; which of those with one pass, and as what |
| ParamSchemas.WalkPasses | crates/mcpdef-core/src/wire.rs:1043-1135 | It passes if and only if each schema it visits with an annotation is down properties alone, is of a type a header carries, and asks for a name that is a token |
| RateLimits.TokenBucket.TryAcquire | crates/mcpdef-ratelimit/src/lib.rs:48-60 | Refills for the time gone by, never back in time, and takes a token if there is one |
| RateLimits.TokensStay | crates/mcpdef-ratelimit/src/lib.rs:48-60 | Tokens stay between none and the capacity |
| RateLimits.ThroughputIsBounded | crates/mcpdef-ratelimit/src/lib.rs:48-60 | The calls allowed in any window of time number at most the capacity and the rate times its length |
| RateLimits.ShedsOnlyWhatBreaksTheBound | crates/mcpdef-ratelimit/src/lib.rs:48-60 | From full, a call is refused if and only if letting it through would break that bound for some window |
| RateLimits.LazyIsFull | crates/mcpdef-ratelimit/src/lib.rs:209-231 | A bucket made at its first call answers as one that had been full from the start |
| RateLimits.KeysRunAlone | crates/mcpdef-ratelimit/src/lib.rs:153-231 | In any interleaving of calls, a key's decisions are those of a lone bucket driven by its own calls that passed the global one |
| RateLimits.EachDecision | crates/mcpdef-ratelimit/src/lib.rs:153-231 | From a new limiter, any call of any run is refused by the global bucket if and only if there is one and the calls that got past it leave no room in some window; by its key's, in that key's own scope, if and only if keys are limited and the key's calls leave none; and is let through otherwise |
| RateLimits.LimiterIsBounded | crates/mcpdef-ratelimit/src/lib.rs:153-207 | All the calls the limiter lets through in any window, every key's together, number at most the global burst and the global rate times its length |
| RateLimits.EachKeyIsBounded | crates/mcpdef-ratelimit/src/lib.rs:153-231 | And those of one key that pass its own bucket, whatever the others do, at most its own burst and rate times its length |
| RateLimits.RateLimiter.Check | crates/mcpdef-ratelimit/src/lib.rs:153-165 | A tool call spends from the global bucket, then from its server's and tool's |
| RateLimits.RateLimiter.CheckRead | crates/mcpdef-ratelimit/src/lib.rs:168-180 | A read spends from its server's read bucket, apart from its tools' |
| RateLimits.RateLimiter.CheckPrompt | crates/mcpdef-ratelimit/src/lib.rs:182-195 | A prompt spends from its server's prompt bucket |
| RateLimits.RateLimiter.CheckCompletion | crates/mcpdef-ratelimit/src/lib.rs:197-207 | A completion spends from its server's completion bucket |

## Left out

- UriGlobs.Compile: takes a URI as its parts, already split and normalized; `uri.rs` is not part of this model, so of an overlap's witness it is known only that it has those parts, with at least one segment and no slash in any.
- Globs.AnchoredGreedyIsRight: works over characters; the source slices bytes, at boundaries it gets from `str` itself.
- Following.Follow.Read: file errors other than a file found shorter than the offset are not modelled; the file only grows, and a read sees it whole.
- LedgerFiles.Ledger.Append: each append is one atomic write; the handle's lock, its watch channel, flushing to disk, and a write cut short are not modelled. A record's reasons and the export formats are not either.
- Ledgers.VerifyMarked: takes parsing of a line as a function; what serde refuses in a line is not modelled, and a line that is no UTF-8, at which the source stops with another error, is one that does not parse.
- LedgerFiles.AppendExtends: of reading back it asks only records this release can write, with no unknown member and every number of the source's width; a count of records past 2^64 is not modelled.
- Preimage.EncodingIsInjective: of two records that both hold separators nothing is promised; such a pair can share a preimage (`Preimage.SeparatorsConfuse`).
- Canonical.WriteCanonical: numbers are integers; floating-point members are not modelled.
- Canonical.CanonPins: for integers likewise.
- Canonical.CanonIsTheValue: for integers likewise.
- CivilDates.TextShowsTheInstant: up to the year 9999, where RFC 3339 ends; from then on the source writes five digits, and the text is longer.
- SchemaSoundness.AllowedIsValid: what a branch of a `oneOf` says by `enum`, `const`, `pattern` or `format` is not interpreted, and where one does the lemma promises nothing.
- SchemaSoundness.ReplacementKeepsValid: `$ref` and `resolve`, `enum` and `const` on containers, `uniqueItems`, `contains` and `patternProperties` are not interpreted; a schema that uses the keywords the check refuses is refused here too. Across a `oneOf` that is not firm nothing is promised: whether the value stays valid is then up to the branch the check did not follow.
- SchemaSoundness.RemovalIsExact: the same keywords, and the same of a `oneOf` that is not firm.
- PlainSchemas.PlainEditIsExact: outside plain schemas the check also refuses what it does not read, whether or not the edit would break the schema; when it does is not said.
- Redaction.RedactText: which rules a redaction reports having found is not modelled; ranges count characters, not bytes.
- ResultRedaction.Redact: JSON nested deeper than the source's parser takes, and numbers outside 64 bits, are not values a result may hold here.
- ResultEdits.RedactResult: the list of rules found, which the source returns beside the result, is not modelled.
- ResultEdits.ApplyEdits: why an edit failed, in words, is not modelled, nor `show`, which decides what of a path those words name.
- Scanning.Scan: the trimming of an operator's phrases and substrings when a scanner is made, the identifiers of rules, and `secret_pattern`, which is the same search over the built-in secrets.
- Headers.ValidateIsExact: the wording of a mismatch; and `stamp_request`, `strip_modern_meta` and the probing of a server's revision.
- ParamHeaders.SentIsSame: numbers that are not integers; a double is read by a function given, for headers such as `42.0`.
- RateLimits.ThroughputIsBounded: over real numbers; rounding in the source's doubles is not modelled.
- RateLimits.RateLimiter.Check: buckets are held by value in a map, as the source's are, and not shared.
- The allowlist, roles, first-match rules and the pinning of tools: mostly one-branch decisions, or a second canonical form of the same shape.
- JWT verification, transports, the console, the benchmarks and packaging.
