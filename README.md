# Chat proxy, chat history and tic-tac-toe — a Dafny model

The repository is a small AI chat web application. An Express server
(`server.js`) exposes `POST /api/chat`, which validates the untrusted
conversation and model name of a request, sanitises in place the string
content of every message of an array it does not refuse outright,
forwards the request to an upstream completion service and relays or hides
its answer; a rate limiter guards the route. The browser front end keeps the
conversation history in local storage (`ChatStorage` in `public/app.js`) and
ships a tic-tac-toe mini game (`public/game.js`).

This project models those parts and proves what they promise:

- `wrappers.dfy`, `json.dfy`, `text.dfy` — an Option type (None plays
  `undefined`), parsed JSON values with JavaScript truthiness, `typeof` and
  property reads, decimal rendering of numbers and `Array.prototype.join`.
- `sanitizer.dfy` — the content sanitiser: the global, case-insensitive
  `<script ...>...</script>` removal written out as functions, and `trim`.
- `message_validation.dfy` — `validateMessages`: specification functions for
  the per-message faults, the `errors` list, `totalChars`, the rewritten array
  and the verdict, and the loop itself as a method over an array that it
  rewrites in place, proved against them.
- `chat_endpoint.dfy` — `validateModel`, the error texts, the limiter's
  `skip` and 429 answer, the status/body chosen after validation and the
  upstream call, and the whole POST handler as one method.
- `chat_history.dfy` — `ChatStorage` as a class whose field is the stored
  array, with the eviction, upsert, lookup, delete and title rules.
- `tictactoe.dfy` — the game as a class over a nine-cell array with the
  invariant that every position it reaches is one of alternating play.

## Model

| member | source | states |
|---|---|---|
| `Json.Get` | server.js:175-181 | a property read yields a value exactly when the value is an object that has the key, and then the stored value |
| `Json.Truthy` | server.js:221 | JavaScript truthiness, as `!model` (and `!msg` at line 169) test it |
| `Json.IsObject` | server.js:169 | `msg && typeof msg === 'object'`: arrays and objects |
| `Text.DigitChar` | server.js:170 | a digit value is rendered as the decimal digit character of that value |
| `Text.NatToString` | server.js:170 | the decimal rendering used in `Message ${i}` is non-empty, all digits, without a leading zero |
| `Text.ParseNatToString` | server.js:170 | the rendering loses nothing: reading the digits back gives the number |
| `Text.Join` | server.js:211 | joining no parts gives the empty string and one part gives that part; every part occurs in the joined text (JoinHasEveryPart) |
| `Text.Window` | server.js:211 | the characters of a text from a position, of a given length |
| `Text.Occurs` | server.js:211 | a text occurs at some position of another |
| `Text.JoinHasEveryPart` | server.js:211 | `parts.join(sep)` contains every part |
| `Sanitizer.FirstCloseAngle` | server.js:192 | `[^>]*>` stops at a `>` at or after the start |
| `Sanitizer.Fold` | server.js:192 | the ASCII case folding of the `i` flag |
| `Sanitizer.IsLineTerminator` | server.js:192 | the characters `.` does not match without the `s` flag |
| `Sanitizer.FirstCloseAngleIsFirst` | server.js:192 | no `>` lies before the one found, and none at all when none is found |
| `Sanitizer.LazyClose` | server.js:192 | the lazy `.*?<\/script>` ends strictly after where it starts and within the text |
| `Sanitizer.MatchScript` | server.js:192 | a match only starts with `<script` in any ASCII case and has positive length |
| `Sanitizer.StripScripts` | server.js:191-192 | the removal never lengthens the text |
| `Sanitizer.StripScriptsKeepsPlainText` | server.js:191-192 | text without `<` passes the removal unchanged |
| `Sanitizer.TrimStart` | server.js:193 | dropping leading whitespace never lengthens the text |
| `Sanitizer.IsJsWhitespace` | server.js:193 | the WhiteSpace and LineTerminator code points `trim` removes |
| `Sanitizer.TrimEnd` | server.js:193 | dropping trailing whitespace never lengthens the text |
| `Sanitizer.TrimStartDropsWhitespace` | server.js:193 | the part dropped in front is all whitespace and the rest starts with a non-whitespace character |
| `Sanitizer.TrimEndDropsWhitespace` | server.js:193 | the part dropped at the end is all whitespace and the rest ends with a non-whitespace character |
| `Sanitizer.Trim` | server.js:193 | `trim` never lengthens the text |
| `Sanitizer.TrimIsInfix` | server.js:193 | `trim` returns an infix that neither starts nor ends with whitespace, empty exactly when the text is all whitespace |
| `Sanitizer.Sanitize` | server.js:191-193 | the sanitised content is never longer than the raw content |
| `Sanitizer.SanitizeKeepsPlainText` | server.js:191-193 | plain text without `<` and without surrounding whitespace is its own sanitised form |
| `Sanitizer.LiteralStartsFolded` | server.js:192 | text that begins with a lower-case pattern verbatim begins with it ignoring case |
| `Sanitizer.MatchesScriptElement` | server.js:192 | the pattern matches a whole `<SCRIPT>x</script>` element, tag name case ignored |
| `Sanitizer.StripsScriptElement` | server.js:191-193 | sanitising `<SCRIPT>x</script> hi` leaves `hi` |
| `Sanitizer.TrimsLeadingSpace` | server.js:193 | `trim` drops a leading space |
| `MessageValidation.MessageFaults` | server.js:169-197 | a non-object gets only the format fault; an object whose content is not a string gets the role fault if any and the content-type fault, and no later check |
| `MessageValidation.RoleOk` | server.js:175 | the role is present and one of `user`, `assistant`, `system` |
| `MessageValidation.ContentIsString` | server.js:180 | `typeof msg.content === 'string'` |
| `MessageValidation.Content` | server.js:186-191 | the string `msg.content` that is measured and sanitised |
| `MessageValidation.WellFormed` | server.js:169-197 | the reference definition of a message passing every check: an object, allowed role, string content of at most 5000 characters, non-empty after sanitising (MessageFaultsEmptyIff) |
| `MessageValidation.SanitizedLength` | server.js:186-199 | what a message adds to `totalChars`: its sanitised length, or nothing when the loop left it earlier |
| `MessageValidation.ContentLength` | server.js:277 | the summed content length logged before the upstream call (TotalIsForwardedLength relates it to `totalChars`) |
| `MessageValidation.MessageFaultsEmptyIff` | server.js:169-197 | a message gets no fault exactly when it is an object with an allowed role and string content of at most 5000 characters that is not empty after sanitising |
| `MessageValidation.Tag` | server.js:170-196 | every fault of a message is tagged with that message's index, in order |
| `MessageValidation.Faults` | server.js:165-200 | the `errors` list after the loop (sound, complete and ordered: CollectSound, CollectComplete, CollectOrdered) |
| `MessageValidation.TotalChars` | server.js:199 | `totalChars` after the loop (the forwarded length, TotalIsForwardedLength) |
| `MessageValidation.Rewrite` | server.js:186-193 | a message with string content gets its sanitised content, any other is left alone (RewriteOfWellFormed) |
| `MessageValidation.SanitizedAll` | server.js:165-200 | the array as the loop leaves it (ValidateMessages, ValidForwardsCleanTurns) |
| `MessageValidation.Verdict` | server.js:146-214 | the result of `validateMessages` on an array (characterised by VerdictCharacterised) |
| `MessageValidation.CollectStep` | server.js:165-200 | one more message appends exactly its tagged faults to the `errors` list |
| `MessageValidation.TotalCharsStep` | server.js:199 | one more message adds exactly its sanitised length to `totalChars` |
| `MessageValidation.ValidateMessages` | server.js:142-215 | a non-array is refused; an empty or over-long array is refused untouched; otherwise every string content is replaced in place by its sanitised form and the result is the verdict on the original messages |
| `MessageValidation.CollectSound` | server.js:165-200 | every entry of the `errors` list names an existing message and one of its faults |
| `MessageValidation.CollectPrefix` | server.js:165-200 | later messages only append to the `errors` list |
| `MessageValidation.CollectComplete` | server.js:165-200 | every fault of every message is in the `errors` list, not only the first faulty message's |
| `MessageValidation.CollectOrdered` | server.js:165-200 | entries of the `errors` list come in message order |
| `MessageValidation.NoFaultsIffWellFormed` | server.js:165-200 | no fault is recorded exactly when every message passes every check |
| `MessageValidation.VerdictCharacterised` | server.js:146-214 | empty and too-many arrays are refused first, an over-long total hides per-message faults, per-message faults are reported all together, and the result is valid exactly when 1 to 50 well-formed messages total at most 30000 sanitised characters |
| `MessageValidation.TotalIsForwardedLength` | server.js:191-199 | `totalChars` is the summed length of the contents as they are forwarded, after sanitising |
| `MessageValidation.TotalAtMostRawLength` | server.js:191-199 | the checked total is never more than the raw contents' total |
| `MessageValidation.RewriteOfWellFormed` | server.js:191-193 | a message that passes every check is forwarded with its role and a non-empty content of at most 5000 characters |
| `MessageValidation.ValidForwardsCleanTurns` | server.js:253-291 | a valid verdict forwards 1 to 50 clean turns whose contents total at most 30000 characters |
| `ChatEndpoint.ModelNotAllowed` | server.js:229-233 | the refusal text lists the whitelisted models separated by a comma and a space |
| `ChatEndpoint.ValidateModel` | server.js:220-237 | a falsy model selects the first whitelisted one, a truthy non-string is refused with its own text, a string off the whitelist is refused listing the whitelist, and an accepted model is always on the whitelist and is the string sent |
| `ChatEndpoint.ModelAcceptedIff` | server.js:220-237 | a model is accepted exactly when it is falsy or a whitelisted string |
| `ChatEndpoint.MessagesErrorText` | server.js:146-211 | a single per-message fault is reported as that entry's text alone; with several, every entry appears (ErrorTextListsEveryFault) |
| `ChatEndpoint.ErrorTextListsEveryFault` | server.js:165-211 | the 400 text of a per-message failure contains the `Message ${i}: ...` entry of every fault, not only the first |
| `ChatEndpoint.FaultDescription` | server.js:170-196 | the text after `Message ${i}: ` for each fault (distinct per fault, FaultDescriptionsDistinct) |
| `ChatEndpoint.FaultText` | server.js:170-196 | one entry `Message ${i}: ...` of the `errors` list (names its index, FaultTextNamesIndex) |
| `ChatEndpoint.DigitRun` | server.js:170 | the leading digits of a text, stopping at the first non-digit |
| `ChatEndpoint.DigitRunStopsAtSeparator` | server.js:170 | the digits of an index followed by `: ` are read back exactly |
| `ChatEndpoint.ReadIndexOfEntry` | server.js:170 | an entry `Message ${n}: ...` reads back as `n` |
| `ChatEndpoint.FaultTextNamesIndex` | server.js:170-196 | every entry of the error text names the index of its message |
| `ChatEndpoint.FaultDescriptionsDistinct` | server.js:170-196 | different faults are reported with different texts |
| `ChatEndpoint.WholeArrayTexts` | server.js:146-153 | the texts for a non-array and an empty array |
| `ChatEndpoint.TooManyMessagesText` | server.js:155-160 | the text for more than 50 messages, with the limit in decimal |
| `ChatEndpoint.TotalTooLongText` | server.js:203-208 | the text for a total above 30000 characters, with the limit in decimal |
| `ChatEndpoint.FoldAll` | server.js:94 | ASCII case folding of a path, character by character |
| `ChatEndpoint.Skip` | server.js:94 | the limiter's `skip` as written: exempt unless the path is exactly `/api/chat` (see SkipExemptsTrailingSlash) |
| `ChatEndpoint.OverLimit` | server.js:90 | the client's count in the window, this request included, exceeds the maximum of 15 |
| `ChatEndpoint.RoutesToChat` | server.js:246 | the paths `app.post('/api/chat', ...)` serves under Express's default case-insensitive, non-strict routing (see ChatPathIsRouted) |
| `ChatEndpoint.ChatPathIsRouted` | server.js:246 | the route path itself reaches the chat handler |
| `ChatEndpoint.SkipExemptsTrailingSlash` | server.js:94 | as written, `/api/chat/` reaches the chat route but is exempt from the limiter |
| `ChatEndpoint.SkipExemptsUpperCase` | server.js:94 | as written, `/API/chat` reaches the chat route but is exempt from the limiter |
| `ChatEndpoint.SkipChatRouteOnlyCoversRoute` | server.js:94 | the corrected exemption counts every path the chat route serves, counts every path the written one counts, and agrees with the written one on every other path |
| `ChatEndpoint.CeilDiv` | server.js:103 | `Math.ceil(a / b)` is the least whole number of `b`s covering `a` |
| `ChatEndpoint.RetryAfter` | server.js:103 | `retryAfter` in seconds covers the whole window and not one second more |
| `ChatEndpoint.RetryAfterIsOneMinute` | server.js:103 | `retryAfter` is 60 |
| `ChatEndpoint.LimitedResponse` | server.js:95-104 | the limiter answers 429 with the text `Too many requests. Please try again later.` and `retryAfter` 60 |
| `ChatEndpoint.ChatResponseCases` | server.js:253-340 | INVALID_MESSAGES exactly when the messages fail; INVALID_MODEL exactly when the messages pass and the model fails, both with 400; SERVER_ERROR with 500 exactly when upstream is unreachable, answers non-JSON or JSON `null`; API_ERROR with the upstream status exactly for other non-2xx answers; relay with 200 exactly for the rest |
| `ChatEndpoint.RejectionIgnoresUpstream` | server.js:253-270 | a request refused by a validator gets the same answer whatever upstream would have said |
| `ChatEndpoint.UpstreamErrorHidesDetails` | server.js:302-313 | an upstream error answer is reported without its body: same status, same response |
| `ChatEndpoint.ChatResponse` | server.js:253-340 | the handler's status/code chain after validation never answers 429, and relays only a 2xx upstream answer, with its body unchanged |
| `ChatEndpoint.CodeText` | server.js:256-339 | the `code` strings `INVALID_MESSAGES`, `INVALID_MODEL`, `API_ERROR` and `SERVER_ERROR` of the failure bodies |
| `ChatEndpoint.Status` | server.js:256-336 | the status set by `res.status(...)`, 200 for the relay `res.json(data)` and 429 for the limiter |
| `ChatEndpoint.Body` | server.js:256-339 | the relayed upstream JSON, the `{ error, code }` failure body, or the limiter's `{ error, retryAfter }` |
| `ChatEndpoint.Ok` | server.js:302 | `response.ok`: a 2xx status |
| `ChatEndpoint.MessagesVerdict` | server.js:253 | the verdict of `validateMessages` on the request's `messages`, a non-array refused first |
| `ChatEndpoint.PostChat` | server.js:246-341 | a request the limiter counts (its `skip` false) that is over the limit gets 429 with nothing sent or changed; every other request, including a routed path such as `/api/chat/` that `skip` exempts, gets the answer chosen from both verdicts and the upstream outcome; an array of 1 to 50 messages is sanitised in place and any other is left as it was; an upstream request is sent exactly when both validations pass, carrying the chosen model, the sanitised messages and 1000 tokens |
| `ChatEndpoint.EmptyMessagesRefused` | server.js:151-153 | an empty `messages` array gets 400 with `Messages array cannot be empty` and INVALID_MESSAGES |
| `ChatEndpoint.PlainTurnAccepted` | server.js:165-214 | one user turn with plain content passes the messages check |
| `ChatEndpoint.UnknownModelRefused` | server.js:262-270 | valid messages with a model off the whitelist get 400 INVALID_MODEL listing the whitelist |
| `ChatHistory.FirstIndex` | public/app.js:22 | `findIndex` gives the first position holding the id, or -1 exactly when none does |
| `ChatHistory.FindFirst` | public/app.js:23 | `find` gives a stored chat with the id, the first one, and nothing exactly when no chat has it |
| `ChatHistory.Find` | public/app.js:23 | `find` by id (first match, FindFirst) |
| `ChatHistory.FirstIndexAt` | public/app.js:22 | a position holding the id with no earlier one is what `findIndex` returns |
| `ChatHistory.FindCons` | public/app.js:23 | `find` returns the first chat when it has the id and otherwise searches the rest |
| `ChatHistory.Evict` | public/app.js:22 | a store at or over 300 chats keeps exactly its newest 299, a smaller one is untouched |
| `ChatHistory.Upsert` | public/app.js:22 | replace the first chat with the id or append (UpsertShape, FindAfterUpsert, FindOtherAfterUpsert) |
| `ChatHistory.UpsertShape` | public/app.js:22 | saving appends exactly when the id is new, otherwise puts the chat at the first position holding the id; every other position, later ones with the same id included, is left alone |
| `ChatHistory.FindAfterUpsert` | public/app.js:22-23 | after saving, looking the id up gives the saved chat |
| `ChatHistory.FindOtherAfterUpsert` | public/app.js:22-23 | saving does not change what any other id looks up |
| `ChatHistory.UpsertKeepsUnique` | public/app.js:22 | saving keeps the ids unique |
| `ChatHistory.Without` | public/app.js:24 | deleting keeps only stored chats with other ids and never lengthens the store |
| `ChatHistory.WithoutSingle` | public/app.js:24 | `filter` keeps a single chat exactly when its id differs |
| `ChatHistory.WithoutAppend` | public/app.js:24 | `filter` distributes over concatenation, so the kept chats keep their order and multiplicity |
| `ChatHistory.WithoutKeepsOthers` | public/app.js:24 | deleting keeps every chat with another id, and changes nothing when the id is absent |
| `ChatHistory.FindAfterWithout` | public/app.js:23-24 | after deleting, the id is gone and every other lookup is unchanged |
| `ChatHistory.WithoutKeepsUnique` | public/app.js:24 | deleting keeps the ids unique |
| `ChatHistory.FirstUser` | public/app.js:25 | the first turn with role `user` (no earlier turn has that role), nothing exactly when there is none |
| `ChatHistory.ChatStorage.constructor` | public/app.js:21 | a browser that has stored nothing yet |
| `ChatHistory.ChatStorage.GetAllChats` | public/app.js:21 | the stored array, or an empty one when nothing was stored |
| `ChatHistory.ChatStorage.GetChat` | public/app.js:23 | a stored chat with the id, nothing exactly when no stored chat has it |
| `ChatHistory.ChatStorage.SaveChat` | public/app.js:22 | returns the chat; stores the evicted-then-upserted array; the store holds at most 300 chats and the id now looks up the saved chat |
| `ChatHistory.ChatStorage.DeleteChat` | public/app.js:24 | stores the array without the id; the id no longer looks up and every other lookup is unchanged |
| `ChatHistory.ChatStorage.GetChatTitle` | public/app.js:25 | the placeholder without messages or without a user turn; otherwise the first user content, cut to 50 characters with `...` appended exactly when it was longer |
| `ChatHistory.SaveBoundAndUnique` | public/app.js:22 | a saved store never exceeds 300 chats and keeps ids unique |
| `ChatHistory.SaveIntoFullStore` | public/app.js:22 | saving a new chat into a full store drops exactly the oldest chat and appends the new one |
| `ChatHistory.UpdateInFullStore` | public/app.js:22 | updating a chat other than the oldest in a full store also drops the oldest chat, leaving 299 |
| `ChatHistory.TitleBounds` | public/app.js:25 | a title is at most 53 characters, longer than 50 exactly when the content was, and starts with the content it was cut from |
| `TicTacToe.AddWin` | public/game.js:96 | a win adds one to the winner's score and nothing else |
| `TicTacToe.Other` | public/game.js:108 | the turn switch between X and O |
| `TicTacToe.Full` | public/game.js:100 | `board.every(cell => cell !== '')` |
| `TicTacToe.Complete` | public/game.js:117-122 | one combination holds three equal non-empty cells (CompleteIff) |
| `TicTacToe.SomeComplete` | public/game.js:116-123 | `some` over the combinations from a position on |
| `TicTacToe.CheckWin` | public/game.js:115-124 | `checkWin` (exactly a row, column or diagonal of one player, CheckWinIffWins) |
| `TicTacToe.Wins` | public/game.js:12-16 | the reference definition of a line on the 3x3 grid: a whole row, column or diagonal of one player (CheckWinIffWins) |
| `TicTacToe.CompleteIff` | public/game.js:115-124 | a combination is complete exactly when one player owns all three cells |
| `TicTacToe.CheckWinIffWins` | public/game.js:12-16 | the eight combinations are exactly the rows, columns and diagonals: `checkWin` holds exactly when a player holds one of them |
| `TicTacToe.PlacingHelpsOnlyMover` | public/game.js:88-92 | placing a mark gives no line to the other player |
| `TicTacToe.Count` | public/game.js:7 | the number of a player's marks is at most the number of cells |
| `TicTacToe.CountPlace` | public/game.js:88 | placing a mark adds one to its owner's count and nothing to the other's |
| `TicTacToe.CountEmpty` | public/game.js:7 | an empty board holds no marks of either player |
| `TicTacToe.Reachable` | public/game.js:82-112 | the positions of alternating play the game keeps (BlankReachable, MoveKeepsReachable) |
| `TicTacToe.BlankReachable` | public/game.js:6-9 | the empty board with X to move is a position of alternating play |
| `TicTacToe.MoveKeepsReachable` | public/game.js:82-112 | a legal move keeps the position one of alternating play, whether it wins, draws or passes the turn |
| `TicTacToe.Game.constructor` | public/game.js:6-9 | an empty board, X to move, game on, no score |
| `TicTacToe.Game.HandleCellClick` | public/game.js:82-112 | a click on a missing or taken cell or after the end changes nothing; otherwise the mover's mark is placed, a line ends the game and scores the mover, checked before a full board which scores a draw, and otherwise the turn passes; the invariant is kept |
| `TicTacToe.Game.ResetGame` | public/game.js:141-153 | a new empty board, X to move, game on, scores kept |
| `TicTacToe.GameOverMeansWinOrDraw` | public/game.js:92-106 | a finished game with a line was won by the last mover and by nobody else, and a finished game without a line is a draw on a full board |

## Left out

- Express wiring, Helmet headers, CORS, the body size limit, request logging, the health, models and index routes and the 404 and global error handlers: configuration of libraries, no logic of the core.
- The limiter's per-client counter and window bookkeeping belong to the express-rate-limit library; the model takes the number of requests in the current window as the input `hits` and keeps only the comparison with the maximum of 15.
- `fetch`, the 30-second timeout and `response.json()` are I/O; how the upstream call ends is the input `upstream` (unreachable, or a status with a body that did or did not parse, where a JSON `null` body also ends in the catch block because reading a property of it throws).
- The fixed `temperature` of 0.7 in the upstream request is a floating-point constant and is not modelled.
- Content lengths are counted in Unicode scalar values; JavaScript counts UTF-16 code units, so a text with characters outside the Basic Multilingual Plane is shorter here than there.
- JSON numbers are integers here: only whether a number is zero matters to the code modelled.
- `ChatStorage` serialises to local storage with `JSON.stringify`/`JSON.parse`; the model stores the parsed array directly and assumes the round trip is exact. A corrupted or foreign stored value is not modelled.
- Chat ids are strings compared with `===`; ids of other JSON types are not modelled.
- The front end's rendering, `escapeHtml`, `loadModels`, the chat list UI and the chat-session functions that are not part of the source are not modelled.
- In the game, DOM updates, winning-cell highlighting, and loading and saving the scores in local storage are left out; the scores are whatever they were and only change as the click handler changes them.
- The request's `messages` being absent or not an array is the single case `null`; the distinction between those values does not affect the result.

## Findings

| source | as written | input that shows it | evidently intended | confidence | as-written member | corrected member |
|---|---|---|---|---|---|---|
| server.js:94 | the limiter exempts every path that is not exactly the string `/api/chat`, but the chat route also serves the same path with a trailing slash or in another letter case | `POST /api/chat/` or `POST /API/chat` is served by the chat handler without being counted | every request the chat route serves is rate-limited | medium, not executed | `ChatEndpoint.SkipExemptsTrailingSlash` | `ChatEndpoint.SkipChatRouteOnlyCoversRoute` |
