# FixSpeech game core and bearer-token filter, in Dafny

This project models two pieces of the FixSpeech pronunciation trainer and
proves properties of them.

**The falling-word game** (`frontend/src/pages/Game/GamePage.tsx`).
`Game.GameSession` is a class that holds the page's state:

- the registry of falling letters;
- score and lives;
- the running and over flags;
- the start time, stage and word list;
- the countdown;
- the pending transcript `recognizedText` and the displayed `beforeText`.

Each event that changes this state is one method:

- stage selection, and the arrival of the stage's word list;
- a countdown tick;
- a spawn;
- a miss, or a removal;
- a batch of speech-recognition results;
- a match check;
- round start and round end.

`Game.GameSession.Valid` is the invariant every method keeps:

- the score is never negative;
- lives stay within `[0, 5]`, and reach 0 only once the round is over;
- the page is never running and over at once;
- there are no letters outside a running round;
- the countdown stays within `[0, 3]`;
- ids strictly increase through the registry.

The pure parts have modules of their own:

- `Transcript` normalises a transcript: `trim`, then `toLowerCase`, then deleting every `\s` match.
- `Registry` is the letter record and the removal by id.
- `MatchEngine` is the filter and the oldest-letter `reduce` of `handleMatchCheck`.

**The authentication filter** (`JwtAuthenticationFilter.java`).

- `JwtFilter.ShouldNotFilter` is the exact-match whitelist.
- `JwtFilter.GetJwtFromRequest` is the bearer-token parser. It models Java's `split(" ")`, which drops trailing empty fields, and Java's `trim`.
- `JwtFilter.DoFilterInternal` is a method. It updates a `SecurityContext` object and returns how the request ends:
  - the chain is invoked;
  - an error response is sent, with its code;
  - an exception escapes.

  The token provider's `validateToken` and `getAuthentication` are function parameters. Each returns a value or throws one of the two exceptions the filter catches.

On these points the model follows the code, which a reader might expect to behave otherwise:

- A miss always costs a life while lives are positive. This holds even if the id is no longer on screen: `removeLetter` returns nothing, and it does not check whether the filter removed anything.
- A falling word is compared after lowercasing only, while the transcript also loses all its whitespace. So a word containing whitespace can never be hit (`MatchEngine.SpacedWordNeverMatches`).
- Playtime is whole seconds, `floor((now - start) / 1000)`. It is 0 when no start time is recorded, and also when the recorded value is 0, which JavaScript treats as false.
- Score and lives are reset when the countdown reaches 0 (`startGame`), not when the stage is selected.
- A header of `"Bearer "` followed only by spaces makes `split(" ")` return a single field. Reading field `[1]` then throws `ArrayIndexOutOfBoundsException`. That happens before the filter's `try`, so no error response is sent (`JwtFilter.IndexFaultIffBlankBearer`).

Each asynchronous delivery in the page is modelled as one atomic method call on the current state:

- a React state update;
- a timer callback;
- a recognition event;
- a fetch result.

Any interleaving of these calls is a possible run. `Date.now()` and `Math.random()` are method parameters, and so is `window.innerWidth`.

## Model

| member | source | states |
|---|---|---|
| Transcript.LowerChar | frontend/src/pages/Game/GamePage.tsx:101 | an upper-case ASCII letter becomes the lower-case letter at the same offset; every other character is kept; the result is never upper case |
| Transcript.ToLowerCase | frontend/src/pages/Game/GamePage.tsx:101 | keeps the length, lowers each character in place, and leaves no upper-case letter |
| Transcript.Trim | frontend/src/pages/Game/GamePage.tsx:101 | a non-empty result neither starts nor ends with a whitespace character |
| Transcript.TrimDecomposes | frontend/src/pages/Game/GamePage.tsx:101 | the input is the trimmed text with only whitespace before it and only whitespace after it |
| Transcript.StripWhitespace | frontend/src/pages/Game/GamePage.tsx:102 | the result contains no whitespace, is no longer than the input, and introduces no upper-case letter |
| Transcript.StripKeepsClean | frontend/src/pages/Game/GamePage.tsx:102 | deleting whitespace from a text without whitespace changes nothing |
| Transcript.LowerKeepsLower | frontend/src/pages/Game/GamePage.tsx:101 | lowering a text without upper-case letters changes nothing |
| Transcript.Normalize | frontend/src/pages/Game/GamePage.tsx:101-102 | a normalised transcript contains no whitespace and no upper-case letter |
| Transcript.NormalizeIdempotent | frontend/src/pages/Game/GamePage.tsx:101-102 | normalising twice gives the same text as normalising once |
| Transcript.TrimIsRedundant | frontend/src/pages/Game/GamePage.tsx:101-102 | the normalised transcript equals the lowered raw transcript with all whitespace deleted, so the leading `trim` changes nothing |
| Transcript.LowerAppend | frontend/src/pages/Game/GamePage.tsx:101 | lowering distributes over concatenation |
| Transcript.StripAppend | frontend/src/pages/Game/GamePage.tsx:102 | deleting whitespace distributes over concatenation |
| Transcript.StripAllWhitespace | frontend/src/pages/Game/GamePage.tsx:101-102 | a text made only of whitespace normalises to the empty text |
| Registry.RemoveById | frontend/src/pages/Game/GamePage.tsx:68 | no entry with the removed id remains, and the registry does not grow |
| Registry.RemoveCounts | frontend/src/pages/Game/GamePage.tsx:68 | every entry with the id is deleted and every other entry occurs as often as before |
| Registry.RemoveAbsent | frontend/src/pages/Game/GamePage.tsx:68 | removing an id that is not on screen leaves the registry unchanged |
| Registry.RemoveIdempotent | frontend/src/pages/Game/GamePage.tsx:68 | removing the same id twice equals removing it once, so a match and a miss for one letter leave the registry as either one alone would |
| Registry.RemoveCommutes | frontend/src/pages/Game/GamePage.tsx:68 | removals of two ids give the same registry in either order |
| Registry.RemoveOnlyAt | frontend/src/pages/Game/GamePage.tsx:68 | if no other entry shares the id at position k, removing that id deletes exactly position k and keeps every other entry in order |
| Registry.RemoveUniqueAt | frontend/src/pages/Game/GamePage.tsx:68 | with ids in spawn order, removing the id at position k deletes exactly that entry and keeps the rest in order |
| Registry.RemoveKeepsOrder | frontend/src/pages/Game/GamePage.tsx:68 | removal keeps ids strictly increasing |
| Registry.AppendKeepsOrder | frontend/src/pages/Game/GamePage.tsx:60-64 | appending a letter stamped later than every letter on screen keeps ids strictly increasing |
| MatchEngine.Matching | frontend/src/pages/Game/GamePage.tsx:158 | every element kept matches the pending transcript and the result is no longer than the registry; with `MatchingMembers` and `MatchingEmptyIff`, it keeps exactly the matching letters on screen |
| MatchEngine.Matches | frontend/src/pages/Game/GamePage.tsx:158 | a letter matches exactly when its text is defined, has the transcript's length, and lowers character by character to the transcript |
| MatchEngine.MatchingMembers | frontend/src/pages/Game/GamePage.tsx:158 | a letter is in the filtered list exactly when it is on screen and matches |
| MatchEngine.MatchingEmptyIff | frontend/src/pages/Game/GamePage.tsx:158-159 | the filtered list is empty exactly when no letter on screen matches |
| MatchEngine.MatchingStartsAt | frontend/src/pages/Game/GamePage.tsx:158 | if the first match in the registry is at position k, the filtered list starts with that letter, followed by the matches after it |
| MatchEngine.ReduceOldest | frontend/src/pages/Game/GamePage.tsx:160-162 | the reduction yields the accumulator or an element of the list, and its id is no larger than any of theirs |
| MatchEngine.OldestOf | frontend/src/pages/Game/GamePage.tsx:160-162 | the chosen letter is one of the matches and has the smallest id among them |
| MatchEngine.OldestIsFirstMinimum | frontend/src/pages/Game/GamePage.tsx:160-162 | when ids tie, the reduction keeps the first letter with the smallest id, because it replaces the accumulator only on a strictly smaller id |
| MatchEngine.OldestMatchIsFirstMatch | frontend/src/pages/Game/GamePage.tsx:158-164 | with ids in spawn order, the hit is the first matching letter on screen, and removing it deletes exactly that letter and keeps every other one in order |
| MatchEngine.SpacedWordNeverMatches | frontend/src/pages/Game/GamePage.tsx:158 | a word with whitespace in its text can never equal a normalised transcript |
| Game.FloorRandom | frontend/src/pages/Game/GamePage.tsx:61-62 | `Math.floor(r * n)` for `r` in `[0, 1)` lies in `[0, n)` when `n` is positive and in `[n, 0]` otherwise |
| Game.ProductBounds | frontend/src/pages/Game/GamePage.tsx:61-62 | `r * m` for `r` in `[0, 1)` and `m >= 0` lies in `[0, m]`, strictly below `m` when `m` is positive |
| Game.SpawnText | frontend/src/pages/Game/GamePage.tsx:61 | the spawned text is an element of the word list; it is undefined exactly when the list is empty |
| Game.Playtime | frontend/src/pages/Game/GamePage.tsx:84 | 0 without a start time, or with a start time of 0; otherwise the elapsed milliseconds lie in `[1000 s, 1000 s + 1000)` for result `s`, and `s` is non-negative when the start does not lie after now |
| Game.InterimResultsKeepPending | frontend/src/pages/Game/GamePage.tsx:104-107 | results that are not final leave the pending transcript unchanged |
| Game.LastFinalResultWins | frontend/src/pages/Game/GamePage.tsx:100-107 | after a walk over the results, the pending transcript is the normalised text of the last final result |
| Game.LastFinal | frontend/src/pages/Game/GamePage.tsx:100-107 | the pending transcript after the walk is either unchanged or free of whitespace and upper case, and it is the latter whenever some walked result is final |
| Game.GameSession.constructor | frontend/src/pages/Game/GamePage.tsx:13-26 | the initial state: no letters, score 0, 5 lives, not running and not over, no start time, empty pending transcript, the idle hint shown, stage 1, no words, no countdown |
| Game.GameSession.HandleStageSelection | frontend/src/pages/Game/GamePage.tsx:39-40 | the selected stage is recorded and nothing else changes |
| Game.GameSession.OnStageWords | frontend/src/pages/Game/GamePage.tsx:41-44 | the fetched list becomes the word list and the countdown starts at 3 |
| Game.GameSession.CountdownTick | frontend/src/pages/Game/GamePage.tsx:47-56 | no countdown: nothing happens; a countdown n > 0 becomes n - 1 and the round is untouched; a countdown of 0 is cleared and a new round is started |
| Game.GameSession.StartGame | frontend/src/pages/Game/GamePage.tsx:147-154 | score 0, 5 lives, no letters, not over, running, and the start time set to now |
| Game.GameSession.EndGame | frontend/src/pages/Game/GamePage.tsx:78-87 | the round is over and not running, the registry is empty, and the returned record holds the stage, the playtime and the score |
| Game.GameSession.AddLetter | frontend/src/pages/Game/GamePage.tsx:58-65 | exactly one letter is appended; its id is now, its text is the spawned text, its `left` is the floored offset; the letters already on screen are untouched and stay in spawn order; it requires a running round, because the spawn interval of lines 175-179 exists only then |
| Game.GameSession.RemoveLetter | frontend/src/pages/Game/GamePage.tsx:67-76 | the letter leaves the registry; a miss with lives left costs exactly one life and otherwise lives are kept; the round ends, and its record is returned, exactly when a miss takes the last life |
| Game.GameSession.OnResult | frontend/src/pages/Game/GamePage.tsx:99-109 | the pending and the displayed transcript are both the normalised text of the last final result from `resultIndex` on, or unchanged when there is none |
| Game.GameSession.HandleMatchCheck | frontend/src/pages/Game/GamePage.tsx:156-169 | with nothing pending, nothing changes; with an undefined letter on screen, `toLowerCase` throws and nothing changes; otherwise the pending transcript is cleared; with no match, letters and score are kept; with a match, exactly the oldest matching letter is removed and the score rises by 1; a `NoMatch` outcome means that no letter on screen matched |
| JwtFilter.ShouldNotFilter | backend/spring-server/src/main/java/com/fixspeech/spring_server/filter/JwtAuthenticationFilter.java:64-68 | filtering is skipped exactly when the servlet path equals one of the whitelist entries of lines 29-31, `/login` and `/user/public/reissue` |
| JwtFilter.SplitFields | backend/spring-server/src/main/java/com/fixspeech/spring_server/filter/JwtAuthenticationFilter.java:59 | there is at least one field, and no field contains the separator |
| JwtFilter.SplitFieldsWithoutSeparator | backend/spring-server/src/main/java/com/fixspeech/spring_server/filter/JwtAuthenticationFilter.java:59 | a string without the separator is one field |
| JwtFilter.SplitFieldsAfterWord | backend/spring-server/src/main/java/com/fixspeech/spring_server/filter/JwtAuthenticationFilter.java:59 | a separator-free word followed by the separator becomes the first field |
| JwtFilter.JoinSplitFields | backend/spring-server/src/main/java/com/fixspeech/spring_server/filter/JwtAuthenticationFilter.java:59 | joining the fields with the separator gives back the input |
| JwtFilter.FieldsEmptyIffSeparatorsOnly | backend/spring-server/src/main/java/com/fixspeech/spring_server/filter/JwtAuthenticationFilter.java:59 | every field is empty exactly when the input consists of separators only |
| JwtFilter.DropTrailingEmpty | backend/spring-server/src/main/java/com/fixspeech/spring_server/filter/JwtAuthenticationFilter.java:59 | the kept fields are a prefix of the input, do not end in an empty field, and every field dropped is empty |
| JwtFilter.DropTrailingEmptyLength | backend/spring-server/src/main/java/com/fixspeech/spring_server/filter/JwtAuthenticationFilter.java:59 | more than k fields survive exactly when some field at position k or later is non-empty |
| JwtFilter.LeadingTrimmable | backend/spring-server/src/main/java/com/fixspeech/spring_server/filter/JwtAuthenticationFilter.java:59 | counts the characters up to U+0020 at the start; the next character is above U+0020 |
| JwtFilter.TrailingTrimmable | backend/spring-server/src/main/java/com/fixspeech/spring_server/filter/JwtAuthenticationFilter.java:59 | counts the characters up to U+0020 at the end; the character before them is above U+0020 |
| JwtFilter.JavaTrim | backend/spring-server/src/main/java/com/fixspeech/spring_server/filter/JwtAuthenticationFilter.java:59 | a non-empty result neither starts nor ends with a character up to U+0020, and holds only characters of the input; `JavaTrimDecomposes` shows that only the two ends are removed |
| JwtFilter.JavaTrimDecomposes | backend/spring-server/src/main/java/com/fixspeech/spring_server/filter/JwtAuthenticationFilter.java:59 | the input is the trimmed text with only characters up to U+0020 before it and after it, so `trim` removes nothing else |
| JwtFilter.JavaSplit | backend/spring-server/src/main/java/com/fixspeech/spring_server/filter/JwtAuthenticationFilter.java:59 | without the separator the input is the only field; no field contains the separator; when split, the last field kept is non-empty |
| JwtFilter.GetJwtFromRequest | backend/spring-server/src/main/java/com/fixspeech/spring_server/filter/JwtAuthenticationFilter.java:56-62 | a missing header, or one that does not start with the exact prefix `"Bearer "`, gives no token; with `NonBlankBearerYieldsToken` and `IndexFaultIffBlankBearer`, every bearer header yields either a token or the index fault |
| JwtFilter.BearerFields | backend/spring-server/src/main/java/com/fixspeech/spring_server/filter/JwtAuthenticationFilter.java:58-59 | a bearer header splits into `Bearer` followed by the fields of what comes after the prefix, and `split` takes its separator branch |
| JwtFilter.BearerTokenExtracted | backend/spring-server/src/main/java/com/fixspeech/spring_server/filter/JwtAuthenticationFilter.java:58-59 | `"Bearer " + t`, with `t` non-empty and free of spaces, yields the token `trim(t)` |
| JwtFilter.TokenIsSecondField | backend/spring-server/src/main/java/com/fixspeech/spring_server/filter/JwtAuthenticationFilter.java:59 | an extracted token is the trimmed second space-separated field of the header and contains no space |
| JwtFilter.IndexFaultIffBlankBearer | backend/spring-server/src/main/java/com/fixspeech/spring_server/filter/JwtAuthenticationFilter.java:58-59 | reading field `[1]` fails exactly on a bearer header with nothing but spaces after the prefix |
| JwtFilter.BearerFieldCount | backend/spring-server/src/main/java/com/fixspeech/spring_server/filter/JwtAuthenticationFilter.java:58-59 | `split(" ")` keeps a second field of a bearer header exactly when something other than spaces follows the prefix |
| JwtFilter.NonBlankBearerYieldsToken | backend/spring-server/src/main/java/com/fixspeech/spring_server/filter/JwtAuthenticationFilter.java:58-59 | a bearer header with something other than spaces after the prefix yields a token, the trimmed second space-separated field |
| JwtFilter.NoTokenIffNotBearer | backend/spring-server/src/main/java/com/fixspeech/spring_server/filter/JwtAuthenticationFilter.java:56-62 | no token is produced exactly when the header is missing or does not start with `"Bearer "` |
| JwtFilter.DoFilterInternal | backend/spring-server/src/main/java/com/fixspeech/spring_server/filter/JwtAuthenticationFilter.java:33-53 | the exception escapes uncaught exactly when field `[1]` is missing; with no token, or one the validator rejects, the context is kept and the chain invoked; with a valid token the authentication is stored and the chain invoked; a `CustomException` clears the context and answers `ACCESS_TOKEN_EXPIRED`, and a `JwtException` answers `INVALID_JWT_TOKEN` instead, in both cases without invoking the chain |
| JwtFilter.ErrorCodeFor | backend/spring-server/src/main/java/com/fixspeech/spring_server/filter/JwtAuthenticationFilter.java:43-50 | a `CustomException` is answered with `ACCESS_TOKEN_EXPIRED` and a `JwtException` with `INVALID_JWT_TOKEN`, and with no other code |

## Left out

- The recording lifecycle (`startRecording`, `stopRecording`, the `onend` auto-restart, `initializeRecognition`; GamePage.tsx lines 89-97 and 111-145). It is device and browser I/O and is not modelled. `OnResult` takes the recognition event's `results` and `resultIndex` as parameters.
- Timers and React scheduling: `setTimeout`, `setInterval`, `useEffect` dependencies and cleanup. Each timer callback or effect run is one method call. The effect that reruns `handleMatchCheck` whenever `recognizedText` changes is left to the caller, who interleaves calls.
- Stale closures are not modelled: every step reads the current state. In the source, a callback can see an older `lives`, `score` or `startTime` than the current one.
- The network: `getGameList`, `getGameWords` and `postGameResult`. `OnStageWords` is the arrival of a fetched list; a failed fetch calls nothing. `EndGame` returns the record it would post.
- The stage list fetch, JSX, styles and navigation.
- Transcript.ToLowerCase: lowers ASCII letters only, not the full Unicode case mapping of JavaScript.
- MatchEngine.Matches: treats `normalize("NFC")` as the identity.
- A letter with undefined text makes `toLowerCase` throw a `TypeError` inside the effect at GamePage.tsx lines 171-173. Nothing catches it, so React unmounts the page. The model only reports the outcome `TypeError` and leaves the state unchanged, and it does not capture that later events no longer arrive.
- The call `removeLetter(oldestLetter.id)` inside `handleMatchCheck` has `isMissed` false, so it only filters the registry. `HandleMatchCheck` performs that filter directly.
- Game.GameSession.AddLetter: requires that `now` is later than every id on screen. Ids come from `Date.now()` and the source assumes they are unique; this environment assumption is what keeps ids in spawn order.
- Game.GameSession.OnResult: requires `resultIndex` to be at most the number of results, which the speech-recognition API guarantees.
- `SecurityContextHolder`, `ErrorResponseUtil` and `JwtTokenProvider` internals are not modelled. The context is one object with an optional authentication; the error response is an outcome value; the provider's two calls are function parameters. Exceptions other than `CustomException` and `JwtException` from those calls are not modelled.
- The `OncePerRequestFilter` dispatch that consults `shouldNotFilter` before calling `doFilterInternal` is not modelled. `JwtFilter.ShouldNotFilter` is the predicate it consults.
- `getHeader` is the `authorization` parameter of `DoFilterInternal`, with `None` for a missing header.
