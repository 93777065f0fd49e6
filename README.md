# Noma bootstrap bot — a Dafny model

The Noma Discord bot runs a whitelist and reward campaign. A Discord user
subscribes with a Twitter handle and an Ethereum address and is given an
8-character code. They post the code on Twitter and run `finalize` to be
verified. Any subscribed user can also take daily tasks, verified or not:
`task` hands out a new code and `verify task` pays 1000 points once the
code has been posted. All state
is one map from Discord user id to a subscription record. The map is kept in
memory and rewritten as one JSON document after every change.

This project models the following parts:

- The four command handlers of `cmd.js`. Each one is an imperative method on
  the shared `SubscriptionStore` (and the `TwitterProbe` throttle, where it
  probes). Each method is proved to follow a pure transition function.
- The helpers in `main.js` that the handlers use:
  - the store's load and save policy;
  - the case-insensitive address scan;
  - the 10-second Twitter throttle and the substring probe;
  - the date gate and the countdown.
- The `messageCreate` front end of `main.js` and `trivia.js`: filtering,
  mention stripping, tokenising and dispatch.
- The trivia revision (`trivia.js`):
  - the lenient answer check;
  - the trivia-balance credit;
  - the menu choice;
  - its own address scan and date gate.
- The spam filter of `mod.js`.
- The read-only `/get-subscription` lookup of `server/main.js`.

The layout:

| file | module | models |
|---|---|---|
| `wrappers.dfy` | `Wrappers` | `Option` |
| `text.dfy` | `Text` | the JavaScript string primitives: `\s`, `\w`, `toLowerCase` (ASCII), `includes`, `trim`, `split(/\s+/)` |
| `numbers.dfy` | `Numbers` | `parseInt(s, 10)` and decimal rendering |
| `codegen.dfy` | `CodeGen` | `crypto.randomBytes(4).toString('hex')` |
| `records.dfy` | `Records` | the subscription record and the map |
| `store.dfy` | `Store` | load and save, the address scan, the store class |
| `clock.dfy` | `Clock` | the date gate and the countdown |
| `probe.dfy` | `Probe` | the throttle and the tweet substring test |
| `commands.dfy` | `Commands` | the four cmd.js handlers |
| `workflow.dfy` | `Workflow` | the handlers composed over any sequence of commands |
| `dispatch.dfy` | `Dispatch` | the `messageCreate` front ends |
| `trivia.dfy` | `Trivia` | trivia.js |
| `moderation.dfy` | `Moderation` | mod.js |
| `server.dfy` | `Server` | server/main.js |
| `scenarios.dfy` | `Scenarios` | short runs of the handlers on concrete users: enrollment, an address conflict, a failed and a rewarded task |

Inputs from outside the program are parameters:

- the clock is `now`, in milliseconds;
- `config.restrictionDate` and `config.taskCooldown` are parameters;
- `ethers.utils.isAddress` is a function parameter `isAddress`;
- the four random bytes are a parameter `random`;
- what Twitter answers for a handle is a `TwitterLookup` value: user not
  found, an error, or the texts of the tweets returned;
- WordNet's synonyms are a function parameter `synonyms`;
- the JSON file is `Option<map>`, with `None` meaning there is no file;
- the order in which `Object.values` lists the records is a parameter `vals`
  that lists the map.

A record's `address` is modelled as missing, a string, or some other JSON
value. This keeps apart the three address scans, which differ on such
records:

- main.js skips any address that is not a string;
- trivia.js throws on it;
- the server skips a falsy address and throws on a truthy non-string one.

`lastTask` follows JavaScript truthiness: a stored `0` does not start a
cooldown.

### What the code does that a reader might not expect

- `task` does not set `lastTask`. So two `task` commands within the cooldown
  both succeed, and the second replaces the code again
  (`Workflow.TaskDoesNotStartCooldown`). Only a verified task starts the
  cooldown (`Workflow.VerifiedTaskStartsCooldown`).
- `task` and `verify task` check only that the user has a record
  (cmd.js:192-196, cmd.js:237-241); `verified` is never read. A user who
  never ran `finalize` is paid for a task and stays unverified
  (`Workflow.UnverifiedUserPaid`).
- `verify task` does not replace the code. So once the cooldown has passed,
  the same tweet pays again (`Workflow.SameTweetPaysAgain`).
- The task reward is 1000 (cmd.js:259).
- `verify task` checks the record's current code. Right after `finalize`,
  that is still the subscription code. So a user's subscription tweet can
  also pay for a task.
- config.js:3-12 defines neither `restrictionDate` nor `taskCooldown`.
  Both are parameters here. As the file stands:
  - main.js's gate compares against an invalid date and never opens
    (`Workflow.ClosedGateRefusesEverything` covers that case);
  - the cooldown comparison `x < undefined` is always false.
- trivia.js declares `taskCooldown = 86400` (trivia.js:42) and a
  `restrictionDate` (trivia.js:95). Neither is used: its handlers read
  `config.taskCooldown`, and its gate always answers true.

## Model

| member | source | states |
|---|---|---|
| CodeGen.HexEncode | main.js:127 | the hex rendering has two lower-case hex digits per byte |
| CodeGen.HexRoundTrip | main.js:127 | decoding the hex rendering gives the bytes back |
| CodeGen.HexEncodeInjective | main.js:127 | different random bytes never give the same code |
| CodeGen.GenerateUniqueCode | main.js:126-128 | the code for four random bytes is 8 lower-case hex characters |
| Text.IncludesIff | main.js:440 | the `includes` scan answers true exactly when the substring occurs at some index |
| Text.TrimStart | main.js:334 | drops exactly the leading `\s` run: the result is a suffix, starts with a non-`\s` character or is empty, and everything dropped is `\s` |
| Text.TrimEnd | main.js:334 | drops exactly the trailing `\s` run, in the same three parts |
| Text.Words | main.js:337 | every token of the `\s+` split is a non-empty run of non-`\s` characters; there are none exactly when the input is all `\s`; together the tokens spell out every non-`\s` character of the input, in order |
| Text.WordsOfSpaced | main.js:334-337 | words separated by non-empty runs of `\s`, with any `\s` before and after, split back into exactly those words |
| Text.WordsOfTrim | main.js:334-337 | trimming before the split never changes the words |
| Numbers.ParseIntDecimal | trivia.js:331 | `parseInt` reads back any rendered natural number, whatever non-digit text follows it |
| Store.LoadFile | main.js:89-95 | a missing file loads as the empty map; an existing file loads as its content |
| Store.Persisted | main.js:100-120 | a save leaves a file exactly when the map is non-empty, and that file holds the whole map |
| Store.LoadAfterSave | main.js:89-120 | loading what a save left behind gives the saved map back, the empty map included |
| Store.SaveAfterLoad | main.js:89-120 | saving what was loaded leaves the file as it was, except that a file holding `{}` is deleted |
| Store.SomeAddressMatchesIff | main.js:172-177 | the `some` scan is true exactly when a listed record has a string address equal to the query ignoring case |
| Store.ScanAnswersRegistered | main.js:172-177 | in every listing order of the map, the scan says whether some user holds the address; non-string addresses never match |
| Store.SubscriptionStore.Load | main.js:83 | the store starts with the file's content (`{}` when there is no file) |
| Store.SubscriptionStore.Save | main.js:100-120 | the map is unchanged, and the file becomes the whole map, or no file when the map is empty, so loading it gives the map back |
| Clock.CountdownOf | main.js:262-276 | "already passed" exactly when the difference is at most 0; otherwise hours < 24, minutes < 60, seconds < 60, and days, hours, minutes and seconds recompose to the whole seconds left |
| Clock.CountdownRecomposes | main.js:270-273 | each `Math.floor` field is the next coarser unit's remainder, and together they recompose to the difference in seconds |
| Probe.SomeTweetIncludesIff | main.js:440 | the `some` over tweets is true exactly when some tweet text contains the code at some index |
| Probe.PostContainsCodeIff | main.js:427-448 | the lookup succeeds exactly when Twitter returned tweets and one of them contains the code exactly; a missing user, an error or an empty timeline give false |
| Probe.TwitterProbe.constructor | main.js:45 | the throttle timestamp starts at 0 |
| Probe.TwitterProbe.CheckTwitterPostForCode | main.js:416-449 | within 10000 ms of the last lookup: false, timestamp unchanged; otherwise the timestamp becomes `now` and the answer is the lookup's; trivia.js:173-198 has the same throttle and substring rule |
| Commands.Rewarded | cmd.js:258-262 | a verified task adds exactly 1000 to the balance (a missing balance counts as 0), sets `lastTask` to `now`, and changes nothing else |
| Commands.Subscribe | cmd.js:27-93 | succeeds exactly when the gate is open, the message is a DM, the user has no record, there are two arguments, the handle (without one leading `@`) matches `^[A-Za-z0-9_]{1,15}$`, the address is valid and no record holds it in any case; it then adds exactly the new record (code, handle, not verified, balances 0, no last task, address) under the user's id; every refusal leaves the map unchanged |
| Commands.Finalize | cmd.js:128-168 | succeeds exactly when the gate is open, the message is a DM, the user has an unverified record and the probe finds the code; it then sets only `verified`; every refusal or probe failure leaves the map unchanged |
| Commands.Task | cmd.js:182-211 | succeeds exactly when the gate is open, the message is a DM, the user has a record and no truthy `lastTask` within the cooldown; it then replaces only the code (`lastTask` and balance untouched); every refusal leaves the map unchanged |
| Commands.VerifyTask | cmd.js:227-268 | succeeds under the same guards as `task` when the probe also finds the current code; it then applies the reward to the user's record only; every refusal or probe failure leaves the map unchanged |
| Commands.HandleSubscribeCommand | cmd.js:11-107 | the reply and the new map are those of `Subscribe` for the generated code; the file is saved exactly when it succeeds |
| Commands.HandleFinalizeCommand | cmd.js:115-173 | the reply and the new map are those of `Finalize` with the throttle state at the call; the probe timestamp moves only when the guards let the probe run; saved exactly on success |
| Commands.HandleTaskCommand | cmd.js:178-218 | the reply and the new map are those of `Task` for the generated code; saved exactly on success |
| Commands.HandleVerifyTaskCommand | cmd.js:223-269 | the reply and the new map are those of `VerifyTask` with the throttle state at the call; the probe timestamp moves only when the guards let the probe run; saved exactly on success |
| Workflow.ApplyTouchesOnlySender | cmd.js:82-90 | a refused command changes nothing; an accepted one changes or adds only the sender's record |
| Workflow.ApplyPreserves | cmd.js:86 | no command removes a user, lowers a balance, changes a trivia balance, handle or address, or un-verifies a user |
| Workflow.RunPreserves | cmd.js:259 | across any sequence of commands no balance ever decreases and nothing bound at subscribe time changes |
| Workflow.SubscribePreservesUniqueAddresses | cmd.js:72-90 | a subscribe keeps every string address held by at most one user, ignoring case |
| Workflow.ApplyPreservesUniqueAddresses | cmd.js:72-76 | every command keeps addresses unique, ignoring case |
| Workflow.RunPreservesUniqueAddresses | cmd.js:72-76 | addresses stay unique, ignoring case, across any sequence of commands |
| Workflow.ClosedGateRefusesEverything | cmd.js:27-31 | before the restriction date every command is refused as not yet available, and neither the map nor the probe timestamp changes |
| Workflow.OpenGateAnswers | main.js:282-286 | from the restriction date on, no command is answered "not yet available", whatever the state |
| Workflow.GateStaysOpen | main.js:282-286 | in a run whose clock never goes back, no command from the first one at or past the restriction date on is answered "not yet available" |
| Workflow.UnverifiedUserPaid | cmd.js:232-266 | a subscribed user who never finalized is paid 1000 for a verified task and stays unverified |
| Workflow.SameTweetPaysAgain | cmd.js:243-266 | `verify task` keeps the code, so after the cooldown the same tweet is paid for a second time |
| Workflow.GuildMessageRefused | cmd.js:34-38 | a command posted in a server channel is refused as DM-only, and nothing changes |
| Workflow.VerifyTaskPaysReward | cmd.js:255-268 | a verified task raises the sender's balance by exactly 1000 and sets `lastTask` to `now`; any other outcome leaves the map unchanged |
| Workflow.SecondSubscribeRefused | cmd.js:41-45 | after a successful subscribe, a second subscribe from the same user is refused as already registered and changes nothing |
| Workflow.AddressTakenInAnyCase | cmd.js:72-76 | a subscribe with an address already held in any letter case is refused and changes nothing |
| Workflow.TaskDoesNotStartCooldown | cmd.js:198-211 | right after a successful `task`, another `task` at the same moment also succeeds with a fresh code |
| Workflow.VerifiedTaskStartsCooldown | cmd.js:247-258 | after a verified task at a non-zero time, `task` and `verify task` are refused until the cooldown has passed, and change nothing |
| Dispatch.MentionLength | main.js:328-331 | a match is `<@`, an optional `!`, a non-empty run of digits and `>` at the start of the message |
| Dispatch.MentionRecognised | main.js:328-334 | every `<@id>` or `<@!id>` prefix is recognised and removed whole |
| Dispatch.Tokenize | main.js:334-338 | the command is the first word, lower-cased, and the arguments are the remaining words in order; with no word the command is empty and there are no arguments |
| Dispatch.Parse | main.js:322-338 | a message is handled exactly when it is not from a bot, is a DM or in the allowed channel, and starts with a mention; it is then the tokenisation of the text after the mention |
| Dispatch.ParseComposed | main.js:328-338 | a mention followed by words separated by runs of `\s`, with any `\s` around them, parses to the first word lower-cased as the command and the other words as arguments |
| Dispatch.VerifyDispatchIff | main.js:395-401 | `verify` reaches the task verification exactly when its next token is `task` in any case |
| Dispatch.VerifyTaskAnyCase | main.js:337-338 | `@bot VERIFY Task` in any case reaches the task verification |
| Dispatch.UnsubscribedGate | trivia.js:488-491 | a user with no record gets past the gate only with `help` or `subscribe` |
| Dispatch.TriviaRoutesLikeMain | trivia.js:493-548 | for a subscribed user, trivia.js routes as main.js does, except its own `trivia` command and `finalize`, `task` and `verify task`, whose handlers it never imported |
| Dispatch.ShownBalance | main.js:374-380 | the balance is shown exactly when the user has a record with a non-zero balance, and the amount shown is that balance |
| Dispatch.ShownTriviaBalance | trivia.js:507-520 | the trivia balance line shows a value exactly when it is non-zero |
| Trivia.StripNonWord | trivia.js:391 | the result holds only word characters and `\s`, and every such character of the input appears in it |
| Trivia.StripNonWordAppend | trivia.js:391 | the filter works piece by piece: stripping `a + b` gives the strip of `a` followed by the strip of `b`, so order and counts are kept |
| Trivia.StripNonWordChar | trivia.js:391 | one character is kept exactly when it is a word character or `\s` |
| Trivia.PunctuationDropped | trivia.js:391 | punctuation between two parts is removed and the parts are joined, so `a-b` becomes `ab` |
| Trivia.WordSet | trivia.js:395-396 | the set holds exactly the words of the list |
| Trivia.DirectMatchIff | trivia.js:399-403 | an answer is accepted directly exactly when twice the number of distinct shared words is at least the number of distinct correct words |
| Trivia.NormalizeIgnoresCase | trivia.js:389-393 | letter case never changes the words an answer reduces to |
| Trivia.IdenticalAnswerAccepted | trivia.js:395-403 | an answer identical to the correct one is always accepted |
| Trivia.CaseVariantAccepted | trivia.js:389-403 | an answer differing only in letter case is accepted |
| Trivia.SomeSynonym | trivia.js:407-412 | the inner loop finds a correct word among the synonyms exactly when there is one |
| Trivia.AnySynonymMatch | trivia.js:405-413 | the outer loop finds a user word with a correct word among its synonyms exactly when there is one |
| Trivia.IsAnswerCorrect | trivia.js:388-417 | accepted exactly on a direct match, or when some user word has a correct word among its synonyms |
| Trivia.AddTriviaPoints | trivia.js:439 | the trivia balance rises by exactly the points (a missing one counts as 0), and nothing else changes |
| Trivia.AddPointsToUser | trivia.js:436-442 | credits exactly the user's record and saves; a user with no record is a TypeError that changes nothing |
| Trivia.TriviaCreditIsolated | trivia.js:436-442 | a credit leaves the task balance and every other user untouched |
| Trivia.TopicIndex | trivia.js:331-336 | a parsed reply selects a topic exactly when it is a number from 1 to the number of topics, and the index is that number minus 1; `NaN` selects nothing |
| Trivia.ChoiceOfNumber | trivia.js:331-338 | replying with the number `k` of a listed topic selects topic `k - 1` |
| Trivia.ChoiceOutOfRange | trivia.js:333-336 | 0 or a number above the topic count is an invalid choice |
| Trivia.TriviaAddressScan | trivia.js:152-154 | when the scan answers, the answer is main.js's; it throws only if some listed record has no string address; with string addresses only, it always answers |
| Trivia.TriviaScanAgreesWithMain | trivia.js:152-154 | whenever the trivia scan answers, it says whether the address is registered, in every listing order |
| Trivia.TriviaIsAfterRestrictionDate | trivia.js:303-306 | the trivia revision's gate is always open |
| Moderation.ContainsUrlIff | mod.js:22-23 | the URL test is true exactly when `http://` or `https://` followed by a non-`\s` character occurs somewhere |
| Moderation.SomeKeywordIncludedIff | mod.js:25-27 | the keyword test is true exactly when some listed keyword occurs somewhere |
| Moderation.ProhibitedIff | mod.js:21-30 | flagged exactly when the message has a URL and, lower-cased, contains a banned keyword |
| Moderation.NoSchemeNeverFlagged | mod.js:22-23 | text with neither `http://` nor `https://` in it is never flagged |
| Moderation.UrlAloneNotFlagged | mod.js:25-29 | a URL without a banned keyword is not flagged |
| Moderation.UrlRecognised | mod.js:22-23 | `https://` followed by a non-`\s` character anywhere counts as a URL |
| Moderation.KeywordInsideWordFlagged | mod.js:7 | with a URL present, "earn" in any case anywhere is flagged, even inside a word such as "Learn" |
| Server.Status | server/main.js:33-48 | 400 exactly for a bad request; 500 exactly when the search threw; 200 exactly for a found record or the not-found payload |
| Server.EntryMatches | server/main.js:41 | a record matches exactly when its address is a non-empty string equal to the query ignoring case; it throws exactly on a truthy non-string address |
| Server.Find | server/main.js:40-42 | the record found is the first that matches, every earlier one failing to match without throwing; there is no match exactly when no record matches and none throws |
| Server.GetSubscription | server/main.js:29-51 | a missing or empty `address` is exactly the 400 case; a found record is a listed one whose address equals the query ignoring case; "not found" means no record matches |
| Server.MissingFileNotFound | server/main.js:20-25 | with no data file, every query is answered "not found" |
| Server.NoAddressNeverReturned | server/main.js:41 | a record with a missing or empty address is never returned |
| Server.FoundIffRegistered | server/main.js:37-49 | over records the bot wrote, an address is found exactly when the bot considers it registered; otherwise the answer is "not found" |
| Server.FindThrowsOnlyAtNonString | server/main.js:40-42 | the search throws exactly when it reaches a truthy non-string address, every entry before it failing to match without throwing |
| Server.FoundIsTheHolder | server/main.js:40-46 | while addresses are unique, the record returned is that of the user who registered the address |

## Left out

- Discord I/O is not modelled: replies, their texts, presence, roles and
  guild membership checks. A reply is a constructor of `Reply` or `Action`.
  A message is its author id, whether it came from a bot, whether it was
  posted in a server, whether that is the allowed channel, and its text.
- The Twitter API is an input, not a call. The handle lookup, the five-tweet
  timeline (main.js) and the author search (trivia.js) all become one
  `TwitterLookup` value.
- `ethers.utils.isAddress`, the presale contract and its provider are left
  out. They are library calls.
- WordNet is not modelled. `getSynonyms` (trivia.js:424-434) is a function
  parameter `synonyms` that returns lower-case words.
- Randomness is not modelled. `crypto.randomBytes` is a parameter `random`.
  The random choice of a trivia question (trivia.js:346) is left out.
- Message collectors and their 30-second timeouts are left out, along with
  the menu text (trivia.js:313-379). Only the choice check is modelled.
- The role assignment after a right answer is left out.
- JSON (de)serialisation is taken to round-trip exactly.
- I/O errors while saving are left out. They are logged and ignored
  (main.js:117-119).
- The handlers' `try`/`catch` error replies are left out.
- Logging is left out. The `console.log` and `console.error` calls have no
  effect on the state or the replies.
- `toLowerCase` is modelled on ASCII letters only. No Unicode case mapping.
- Numbers are unbounded integers. JavaScript doubles, `NaN` and invalid
  dates are not modelled, except that a missing `lastTask` or a `lastTask`
  of 0 skips the cooldown.
- Each handler reads the clock once, as `now`. In the code, the gate, the
  cooldown and the throttle each call `Date.now()` or `new Date()` themselves.
- Concurrency is left out. This covers interleaving of async handlers and
  races between the bot and the server over the JSON file.
- trivia.js's `subscribe` is not modelled as its own operation. It runs the
  same cmd.js handler with an always-open gate and the trivia address scan
  (`Trivia.TriviaAddressScan`), whose TypeError the handler's `catch` turns
  into an error reply that changes nothing.
- trivia.js's `finalize`, `task` and `verify task` are left out. They call
  handlers that trivia.js never imports (trivia.js:10), so they fail with a
  ReferenceError (`Dispatch.HandlerMissing`).
- trivia.js's load, save and code generator are left out. They are the same
  code as main.js's and are modelled once, in `Store` and `CodeGen`.
- Repeated `address` query parameters are left out. Express would pass an
  array, and `toLowerCase` would throw on it.
- CORS and the HTTP server setup of server/main.js are left out.
- shout.js, user/index.js and user/bnc.js are not part of this model. They
  are event glue and self-bot presence loops.
- config.js is not part of this model. Its settings are parameters.
- Probe.TwitterProbe.CheckTwitterPostForCode: for trivia.js it states
  the same contract as main.js's. trivia.js's search returns only tweets
  matching `from:handle code`. That is a property of the Twitter API, and
  the model does not capture it.
