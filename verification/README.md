# Memory vault: verified models

A Dafny 4.11 model of the algorithmic core of the memory vault, with proofs of what its services and their documentation
promise, and of where they do not hold. `dafny verify dfyconfig.toml` checks everything.

| files | what they model |
|---|---|
| `Text.dfy` | the host's string operations: `strip`, `splitlines`, `join`, `replace`, decimal numerals |
| `AaakSubstitution`, `AaakSegments`, `AaakParse`, `AaakLostTokens`, `AaakTokens`, `AaakRecord`, `AaakDocument`, `AaakLineBreaks`, `AaakHeader`, `AaakRoundTrip`, `AaakLimits`, `AaakDigits` | the AAAK text codec: the phrase dictionary and its header line, quoting, the token scan, documents, the round trip, and where it fails |
| `TieredCache`, `Resolvers` | the two-tier TTL caches of many pods, the resolver objects, and the active-org decision |
| `Timeline` | keyset pagination of the namespace timeline |
| `TurnPairing`, `DigestBudget`, `DigestRefresh` | the rolling session digest |
| `Dedup` | concurrent exact deduplication over a partial unique index |
| `ChatUpsert`, `ChatHistory` | the hash-gated chat upsert, and what runs of it store |
| `AuditChain` | the audit hash chain |
| `Coalescing` | L3 summary regeneration under a lock and a debounce |
| `CircuitBreaker`, `RateLimit`, `Decay`, `Gatekeeper` | four small state machines and batch forms |

Code that updates objects, lists or dictionaries is modelled by classes and methods with loops; each is proved equal to a
function, or against a statement of its result, and the theorems are about that function or about runs of it. Code that
interleaves at `await` points is a state machine with one step per stretch between two such points, and its theorems
quantify over all runs. Parameters stand for what is outside: the clock and the order of events, Redis and database
failures, SHA-256, JSON, ISO times, base64url, the token counter, the language model, glob matching, and the phrases the
miner picks. Where a theorem needs a property of one of them (no hash collisions, `loads` inverts `dumps` on containers),
a predicate named `Sound` or `Injective` says so.

## Where the code and its documentation differ

The model follows the code. These differences are theorems, not remarks:

- "Every memory dict round-trips exactly" (kemory/compression/aaak.py:10) holds for a memory if and only if every value
  survives: known field, no line break other than LF and CR, an unquoted value neither starts with `~` nor holds blanks
  outside ASCII, and content in which no token can be mistaken uses no phrase that the header line cuts at such a blank,
  while of other content the passes over it alone decide (`RoundTripIff`, `LeadingTildeIsLost`, `NoBreakSpaceIsLost`,
  `ExoticLineBreakIsLost`, `CutPhraseIsLost`; "Left out" names what is outside its scope). With ten or more phrases, a
  replaced phrase in front of a digit can come back as another phrase: for phrases that do not start with a digit and can
  be told apart, that and a spelled token are the only ways to lose a text (`LetterTextSurvivesIff`,
  `SingleOccurrenceSurvivesIff`, `DigitBehindPhraseIsLost`). A phrase that starts with a digit can be read
  together with the token in front of it, and can match across a token; `DigitFirstPhraseIff` and `StraddleIff` say when
  the text is lost, `DigitFirstPhraseIsLost` is an instance.
- The comment in `_serialise_memory` speaks of the alphabetical order of aliases; the fields are in the order of their keys
  (`LineIsInOrder`).
- Membership changes do not propagate "within one minute": the tiers stack to 65 seconds, plus the time a lookup can be
  in flight (`BoundedStaleness`), and every age below that is reached (`EveryAgeBelow65IsReached`, `OneMinuteIsNotEnough`).
  An invalidation can be undone by a lookup in flight, or by one that refills the pod's L1 while the invalidation waits
  for Redis; `InvalidationProtectsPodIff` says exactly when, `RefilledWhileItWaits` is the second case.
- `_do_summarize_l3` says its caller holds the lock; `prewarm_namespace` does not, and two generations can be in flight
  exactly when a prewarm is not alone (`PrewarmOverlapsIff`). A writer that is skipped because the lock is held is covered
  exactly when its memories were there when the holder counted (`SkippedWriterIsCoveredIff`, `SkippedWriterIsLost`).
- The comment in `upsert_chat` says that a matching mapping is honoured; the code looks at the payload only, so a mapping
  that fires without a namespace or project in the payload does not move a chat out of its namespace (`MovedChatStays`).
  A turn whose source id is the empty string is looked up as having none but falls under the unique constraint, so the
  second such turn fails the push (`StoreFits`).
- The rate limiter calls itself a sliding window; it lets up to `2 * max - 1` requests through in one window
  (`IntervalBound`, `BoundIsReached`).
- The breaker's "probe" request forgets all failures (`ProbeDoesNotTrip`). A 2xx answer resets the counter before its body
  is parsed, so an unreadable body is always failure number one: a service that sends only such answers never trips the
  breaker (`UnreadableBodiesNeverTrip`), and the pace of five failures to a cooldown holds exactly as long as the failures
  wiped that way and those on the counter are five at most (`StreakTakesCooldownsIff`).
- The batched permission filter skips conditions (`BatchAgreesIff`, `ClosedRuleStillLists`).
- The hash of an audit row joins action and resource by an unescaped colon, so a colon can be moved from the one to the
  other without a trace, and nothing else can (`ColonsShift`, `UnreportedChangeIff`).
- A create that matches an existing memory counts the access before it returns, and the memory can be deleted in between
  (`ReturnedRowIsActiveIff`, `MatchedRowMayBeGone`).

## Model

| member | source | states |
|---|---|---|
| AaakSubstitution.ApplySubstitutions | kemory/compression/aaak.py:105-110 | the loop of global replaces over the sorted dictionary is the composition of its rules, longest phrase first, ties in dictionary order |
| AaakSubstitution.ReverseSubstitutions | kemory/compression/aaak.py:113-120 | the same for the inverted dictionary, in which a later phrase takes over a token that appears twice |
| AaakSegments.EncodingKeepsMeaning | kemory/compression/aaak.py:105-110 | a pass over a list of original characters and tokens keeps the text the list expands to |
| AaakSegments.EncodingYieldsSegments | kemory/compression/aaak.py:105-110 | whatever the order of the passes, such a list stands for the original text after all of them, and where no pass finds its phrase across a token it is the encoded text |
| AaakSegments.DecodingRestores | kemory/compression/aaak.py:113-120 | decoding passes over such a list in which no token can be misread give back what it expands to |
| AaakSegments.SubstitutionRoundTrip | kemory/compression/aaak.py:105-120 | for every table of at most 20 mined phrases, digits in front included, reversing the passes restores every text in whose passes no phrase is found across a token, and whose encoded form spells no token of the table with its own characters, nor with a token and the digit behind it |
| AaakSegments.LetterTextIsClean | kemory/compression/aaak.py:105-110 | phrases that do not start with a digit are never found across a token, whatever the text |
| AaakSegments.SafeIsUnmistaken | kemory/compression/aaak.py:105-120 | these conditions hold for every text that spells no token, in which no phrase stands in front of a digit that makes another token of its number, nor in front of text with which the end of its token makes a phrase |
| AaakSegments.NinePhrasesAlwaysRoundTrip | kemory/compression/aaak.py:105-120 | with at most nine phrases, none starting with a digit, every text without a dollar is restored, whatever follows its phrases |
| AaakSegments.CutTextDiffers | kemory/compression/aaak.py:105-120 | such an encoded text cut in front of a character of no token never decodes to the original |
| AaakParse.DecoderReads | kemory/compression/aaak.py:113-120 | for phrases that do not start with a digit, in every text whatever the passes read a dollar and as many digits as make a token of the table, from left to right |
| AaakParse.LetterTextSurvivesIff | kemory/compression/aaak.py:105-120 | for such phrases, if no phrase and another one with the digit of a longer token are fronts of each other, every text comes back if and only if no token is mistaken |
| AaakLostTokens.PartRestores | kemory/compression/aaak.py:113-120 | decoding with any part of the tokens: each is read as its phrase, as the phrase of its first digit and its second digit, or as itself |
| AaakTokens.UnescapeInner | kemory/compression/aaak.py:161-177 | the index loop over a quoted value computes the character-by-character unescaping |
| AaakTokens.UnescapeValue | kemory/compression/aaak.py:150-180 | `~` is None, quotes are taken off and unescaped, anything else stands for itself |
| AaakTokens.UnescapedEscaped | kemory/compression/aaak.py:123-180 | unescaping inverts the five sequential replaces of the encoder on every text |
| AaakTokens.WrittenAsItIsIff | kemory/compression/aaak.py:123-147 | a text is written without quotes if and only if it is not empty, does not start with a dollar and holds none of seven characters |
| AaakTokens.EscapesAre | kemory/compression/aaak.py:139-145 | the escape of every character |
| AaakTokens.WrittenValueSeen | kemory/compression/aaak.py:203-206 | the leftmost scan finds in `alias=value` exactly the value, its first blank-free part, or nothing, and no token that straddles its end |
| AaakTokens.CarriedIff | kemory/compression/aaak.py:123-206 | a text comes through quoting, scan and unescaping unchanged if and only if it is quoted, or has no blank and does not start with a tilde |
| AaakRecord.WriteValue | kemory/compression/aaak.py:123-200 | content is substituted before it is quoted; None is a tilde |
| AaakRecord.SerialiseMemory | kemory/compression/aaak.py:183-200 | the line of a memory: known fields in the order of the schema, unknown ones left out |
| AaakRecord.LineIsInOrder | kemory/compression/aaak.py:183-200 | on the line of every memory the id comes first and then the fields by ascending key |
| AaakRecord.OneFieldLine | kemory/compression/aaak.py:23-34 | the line of a memory with one field, with the documented alias of its key |
| AaakRecord.ParseMemoryLine | kemory/compression/aaak.py:209-231 | the memory of a line, or an error when it is no M-line: unknown aliases skipped, later tokens over earlier ones, metadata read as JSON when it can be |
| AaakRecord.LineReadsBack | kemory/compression/aaak.py:183-231 | for every memory, parsing its line gives its known fields with each value as the scan saw it |
| AaakDocument.WriteSubLine | kemory/compression/aaak.py:243-248 | the dictionary line |
| AaakDocument.EncodeAaak | kemory/compression/aaak.py:234-253 | the document: header, dictionary, one line for each memory, footer |
| AaakDocument.DocumentFrame | kemory/compression/aaak.py:234-253 | every document is the literal header line, its body and the literal footer line, and nothing else without memories |
| AaakDocument.SubLineStarts | kemory/compression/aaak.py:243-248 | the dictionary line starts with its mark and the first phrase under `$1` |
| AaakDocument.DecodeAaak | kemory/compression/aaak.py:256-289 | the decoder's loop over the lines, with its error on a missing header |
| AaakLineBreaks.DecodedIsBreakless | kemory/compression/aaak.py:256-289 | for every blob, well-formed or not, no decoded string outside the metadata holds a line break other than LF and CR |
| AaakHeader.SubLineScan | kemory/compression/aaak.py:243-285 | the decoder reads from the dictionary line every phrase, unquoted ones up to their first blank, and of those cut to the same word keeps the last |
| AaakHeader.SeenContentIff | kemory/compression/aaak.py:105-285 | a content in which no token is mistaken comes back through the decoder's own dictionary if and only if its encoded form spells no token of a phrase that the header cuts |
| AaakRoundTrip.ContainersSurvive | kemory/compression/aaak.py:127-130 | dicts and lists always survive as metadata |
| AaakRoundTrip.MemorySurvivesIff | kemory/compression/aaak.py:183-231 | one memory is read back as itself if and only if every value of it survives |
| AaakRoundTrip.DirectContentIff | kemory/compression/aaak.py:105-231 | what was written for such a content alone is read back as it if and only if its encoded form is carried by its token and no phrase in it is cut |
| AaakRoundTrip.RoundTripIff | kemory/compression/aaak.py:10 | decoding an encoded list of memories, with any contents, gives that list if and only if every memory survives: a condition on each value and the dictionary, which for a content in which a token can be mistaken is the result of the passes over that content |
| AaakRoundTrip.MinedRoundTripIff | kemory/compression/aaak.py:82-289 | the same for phrases that occur in the contents, with nothing asked of their line breaks |
| AaakRoundTrip.PlainDocumentsRoundTrip | kemory/compression/aaak.py:232-289 | every list of memories with known fields, ASCII blanks, no leading tilde and contents in which no token is mistaken round-trips exactly |
| AaakLimits.PhraseFreeTextSurvivesIff | kemory/compression/aaak.py:113-120 | a text without any phrase survives if and only if it spells no token of the table |
| AaakLimits.SingleOccurrenceSurvivesIff | kemory/compression/aaak.py:105-120 | a text in which one phrase occurs once, and no other, survives if and only if no digit behind the phrase makes another token of its number |
| AaakLimits.DigitBehindPhraseIsLost | kemory/compression/aaak.py:105-120 | in every table where `$i` and a digit spell another token, phrase i in front of that digit comes back as the other phrase |
| AaakLimits.CutPhraseIsLost | kemory/compression/aaak.py:243-285 | a content in which a phrase that the header cuts occurs once does not survive |
| AaakDigits.DigitFirstAfterToken | kemory/compression/aaak.py:105-120 | what `$i$j` decodes to, for every table and every phrase j that starts with a digit |
| AaakDigits.DigitFirstPhraseIff | kemory/compression/aaak.py:82-120 | two phrases side by side encoded as `$i$j`, the second starting with a digit, come back if and only if that digit makes no token of `$i` whose pass is still to come, or one of the same text |
| AaakDigits.StraddleIff | kemory/compression/aaak.py:82-120 | a text in which a phrase matched across the digit of a token comes back if and only if its own token is replaced before that token |
| AaakDigits.DigitFirstPhraseIsLost | kemory/compression/aaak.py:82-120 | a table and a text in which this loses the text |
| AaakLimits.LeadingTildeIsLost | kemory/compression/aaak.py:203-206 | every memory with an unquoted value that starts with a tilde fails to round-trip |
| AaakLimits.NoBreakSpaceIsLost | kemory/compression/aaak.py:123-147 | a no-break space in an unquoted value cuts it |
| AaakLimits.ExoticLineBreakIsLost | kemory/compression/aaak.py:256-262 | quoting does not protect a line separator |
| TieredCache.StepKeepsOk | backend/services/team_resolver.py:98-159 | every step of every lookup in every pod keeps all entries of both tiers, and all values in flight, true of the source at the time recorded for them, with bounded ages |
| TieredCache.BoundedStaleness | backend/services/team_resolver.py:43-159 | in every run of any number of pods, with Redis failures and a changing source, a value returned at t was the source's value at some time in [t - 65 - 2d, t], where d bounds the time between two steps of a lookup |
| TieredCache.InvalidationTakesEffect | backend/services/team_resolver.py:81-95 | whatever happens while an invalidation waits for Redis: when no lookup holds an older answer of the source at the delete, every read in every pod from five seconds and one delay on is at least as fresh as the invalidation |
| TieredCache.InvalidationTakesEffectIff | backend/services/team_resolver.py:81-159 | and only then: with an older answer of the source in flight at the delete some continuation returns it at that very time |
| TieredCache.InvalidationProtectsPodIff | backend/services/org_role_resolver.py:114-123 | from the delete on the invalidating pod reads fresh values in every continuation if and only if at that moment its L1 has not been refilled with an older one, no lookup holds an older answer of the source, and none of its own an older answer of Redis |
| TieredCache.RefilledWhileItWaits | backend/services/org_role_resolver.py:114-123 | from every quiet state with an older live entry in Redis, a lookup during the wait undoes the invalidation |
| TieredCache.EveryAgeBelow65IsReached | backend/services/team_resolver.py:43-45 | for every source and every age below 65 s some run without delays or failures returns a value of that age |
| TieredCache.EveryAgeBelowTheBoundIsReached | backend/services/team_resolver.py:43-159 | the bound is approached for every delay d: every age below 65 + 2d seconds is that of some answer |
| TieredCache.OneMinuteIsNotEnough | backend/services/team_resolver.py:43-45 | a run without delays or failures in which a value replaced at 1 s is returned at 63.5 s |
| Resolvers.Resolver.Resolve | backend/services/org_role_resolver.py:126-200 | one call on the objects: L1, Redis, source; nothing is cached on an error or a denial |
| Resolvers.Resolver.InvalidateForOrg | backend/services/org_role_resolver.py:114-123 | drops one L1 entry, and the shared one unless Redis fails |
| Resolvers.Resolver.Invalidate | backend/services/team_resolver.py:65-78 | drops exactly the L1 entries of the user and leaves Redis alone |
| Resolvers.CallIsARun | backend/services/org_role_resolver.py:126-200 | every uninterrupted call on the objects is a sequence of steps of the interleaved system with the same effect and answer |
| Resolvers.GrantIffRole | backend/core/active_org.py:101-136 | in mode m3 a non-empty org is granted exactly when the resolver returned a role for the org asked for |
| Resolvers.ActsForTheOrgAskedFor | backend/core/active_org.py:101-136 | in every mode and for every caller: the token's organisation outside m3 and for agents; for humans the header's, and the token's only without one; never the sentinel, and only for members |
| Resolvers.GrantRestsOnRecentRole | backend/core/active_org.py:82-136 | over every run, a granted org rests on a role the caller had within the staleness window, and a failed resolution grants nothing |
| Timeline.OneRowPerEntry | backend/services/namespace_timeline_service.py:104-143 | the union has one row for each entry, so position is determined by the entry's current time |
| Timeline.ChatIsListedIff | backend/services/namespace_timeline_service.py:104-143 | a chat is a row if and only if chats are asked for and it is the user's, in the namespace and not deleted, at the time it was captured or else created |
| Timeline.MemoryIsListedIff | backend/services/namespace_timeline_service.py:104-143 | a memory likewise, at its own time, else that of its source chat if that is the user's, else its creation |
| Timeline.LessMeans | backend/services/namespace_timeline_service.py:147-164 | the order in figures: time, then id, then memories in front of chats |
| Timeline.CursorRoundTrip | backend/services/namespace_timeline_service.py:52-66 | a cursor decodes to the row it was made from, even when the id contains the separator |
| Timeline.CursorReadsIff | backend/services/namespace_timeline_service.py:52-66 | what a cursor is made of, and that whatever decodes is made so |
| Timeline.BuildPage | backend/services/namespace_timeline_service.py:173-216 | the page, its items after hydration, and a next cursor exactly when the probe found more |
| Timeline.HasMoreIff | backend/services/namespace_timeline_service.py:173-216 | a page says there is more if and only if more rows are left than its limit, and then it has a next cursor |
| Timeline.MoreUntilTheLastPage | backend/services/namespace_timeline_service.py:173-216 | in a completed traversal every page but the last says that there is more |
| Timeline.ClampIsNearest | backend/services/namespace_timeline_service.py:101 | limits outside 1 to 100 become the nearer of the two |
| Timeline.ItemsDescend | backend/services/namespace_timeline_service.py:147-164 | the items of a traversal descend strictly, whatever changes between its pages |
| Timeline.StableRowsExactlyOnce | backend/services/namespace_timeline_service.py:147-216 | with arbitrary changes between the pages, a completed traversal hands out every entry that stayed, under a fixed key, exactly once |
| Timeline.StableEntriesExactlyOnce | backend/services/namespace_timeline_service.py:104-216 | so a chat or memory whose row stays is exactly one item of the traversal, and no other item is of that entry, while the tables change between the pages |
| Timeline.FixedTraversalIsSortedList | backend/services/namespace_timeline_service.py:147-216 | over a fixed data set a completed traversal returns exactly the list sorted by (time, id, kind) descending |
| Timeline.FixedTraversalEnds | backend/services/namespace_timeline_service.py:173-216 | it completes within as many requests as there are rows left, plus one |
| Timeline.BadCursorStartsOver | backend/services/namespace_timeline_service.py:58-66 | a cursor that does not decode is served like none |
| TurnPairing.PairChatTurns | backend/services/session_digest_service.py:79-127 | the loop with its pending question computes the pairing of the ordered turns |
| TurnPairing.ContentReads | backend/services/session_digest_service.py:90-124 | what the three kinds of exchange read like, and their anchors |
| TurnPairing.PairingConservesTurns | backend/services/session_digest_service.py:79-127 | every non-blank user or assistant turn is in exactly one exchange, in order; an exchange has at most one of each, the user first, nothing between; no question is left beside an answer it could be paired with |
| TurnPairing.PairingIsUnique | backend/services/session_digest_service.py:79-127 | only one list of exchanges has these properties |
| TurnPairing.AnchorsDistinct | backend/services/session_digest_service.py:89-99 | with distinct turn ids the anchors of different exchanges differ |
| TurnPairing.ExchangesShareNoTurn | backend/services/session_digest_service.py:79-127 | no turn is in two exchanges |
| TurnPairing.PairedGrows | backend/services/session_digest_service.py:79-127 | when turns are appended to a conversation, all exchanges but the last stay as they were |
| DigestBudget.FitTextToBudget | backend/services/session_digest_service.py:776-797 | the greedy loop computes the greedy choice of lines |
| DigestBudget.MarkerIsTrimmed | backend/services/session_digest_service.py:784 | the service's marker has no blank at its ends, which is all that FittedIsIdempotent asks of a marker |
| DigestBudget.FittedIsWithinBudget | backend/services/session_digest_service.py:776-797 | the result is within the budget for every counter that counts nothing in the empty text |
| DigestBudget.FittedIsIdempotent | backend/services/session_digest_service.py:776-797 | fitting twice changes nothing |
| DigestBudget.KeptIsSubsequence | backend/services/session_digest_service.py:788-797 | in front of the marker stand lines of the text, in order |
| DigestBudget.ChoiceIsMaximal | backend/services/session_digest_service.py:768-797 | under a monotone counter, putting any dropped line of the text back in its place among the lines of the fitted text overflows the budget |
| DigestBudget.FallbackIsMonotone | backend/services/session_digest_service.py:768-774 | the chars-over-three fallback is such a counter |
| DigestRefresh.Compact | backend/services/session_digest_service.py:550-561 | the loop over the batches generates from each in turn, with all ids recorded |
| DigestRefresh.SessionDigest.Refresh | backend/services/session_digest_service.py:493-594 | the new row and the batches handed to the generator, including the early return |
| DigestRefresh.RefreshKeepsRow | backend/services/session_digest_service.py:544-580 | stored ids stay duplicate-free and counted, and grow by exactly the ids of the batches, each of one to three exchanges |
| DigestRefresh.GeneratedOnTop | backend/services/session_digest_service.py:550-561 | every batch is generated on top of what the batches before it gave |
| DigestRefresh.RefreshBuildsOn | backend/services/session_digest_service.py:546-565 | for every generator that only adds, and a fit that cuts nothing, the stored text stays in front |
| DigestRefresh.NothingDueKeepsText | backend/services/session_digest_service.py:546-577 | with nothing due the generator is not asked and the stored text is fitted again |
| DigestRefresh.DigestCarriesEveryBatch | backend/services/session_digest_service.py:493-594 | over any sequence of refreshes, with a generator that writes every batch down, the text is all batches in order |
| DigestRefresh.RefreshKeepsSources | backend/services/session_digest_service.py:570-583 | the memories and turns behind the digest: those known, in front, and those of the new exchanges, each once; the tail and the time it reaches to |
| DigestRefresh.TailSplits | backend/services/session_digest_service.py:509 | the exchanges are what may be compacted and then the raw tail of the length asked for |
| DigestRefresh.BatchesAreFull | backend/services/session_digest_service.py:550 | all batches but the last are of three |
| DigestRefresh.NothingFallsBetween | backend/services/session_digest_service.py:512-545 | after a refresh every loaded exchange is in the digest or in the raw tail |
| DigestRefresh.FitterStaysWithin | backend/services/session_digest_service.py:564-565 | the service's own fit keeps every text within the budget |
| DigestRefresh.StoredDigestIsWithinBudget | backend/services/session_digest_service.py:563-577 | after a refresh with such a fit the stored text is within the budget and the stored count is its count |
| DigestRefresh.EachIdCompactedOnce | backend/services/session_digest_service.py:493-594 | over any sequence of refreshes each exchange id enters exactly one batch, and the row lists these ids in that order with their number |
| DigestRefresh.EachTurnCompactedOnce | backend/services/session_digest_service.py:493-594 | while a chat only grows and a raw tail is kept, everything compacted is an exchange of the final conversation, none twice, and no turn is in two of them: no question is compacted once alone and once with its answer |
| DigestRefresh.ZeroTailCompactsTwice | backend/services/session_digest_service.py:501-520 | without a raw tail every question is compacted alone and again with its answer |
| Dedup.StepKeepsOk | backend/services/memory_service.py:455-619 | every statement of every creator, updater and deleter keeps at most one row that can end up with a key, however the open transactions end |
| Dedup.NoDuplicates | backend/models/memory.py:317-324 | in every interleaving at most one active memory has a given user, namespace and hash, so the lookup never meets two |
| Dedup.MatchedRowIsActive | backend/services/memory_service.py:455-472 | a lookup that matches names a row that is active with the hash at that moment |
| Dedup.ReturnedRowIsActiveIff | backend/services/memory_service.py:601-619 | a create names a row it inserted that is active when it returns, or one it matched, which is active then if and only if it still was when the access was counted |
| Dedup.MatchedRowMayBeGone | backend/services/memory_service.py:1465-1489 | a run in which a delete comes between the lookup and the count, and the create returns a deleted memory |
| Dedup.CreateInserts | backend/services/memory_service.py:570-619 | a create of content that is nowhere inserts it and returns it |
| Dedup.UpdateChangesHash | backend/services/memory_service.py:776-838 | an update to other content gives the row the new hash, and it answers to the old one no more |
| Dedup.UpdateFailsIff | backend/services/memory_service.py:776-838 | an update fails if and only if another memory of the owner and namespace has the new content |
| Dedup.UpdateKeepsOtherKeys | backend/services/memory_service.py:776-838 | an update to the same content, or of a deleted memory, leaves the key alone |
| Dedup.DeleteRemoves | backend/services/memory_service.py:861-878 | a delete takes the memory away, and one that fails leaves it |
| Dedup.CreatesFindTheChanged | backend/services/memory_service.py:455-619 | after the last update or delete, creates of a memory's content return it, and creates of other content, its old one included, do not |
| Dedup.CreatorsAgree | backend/services/memory_service.py:455-619 | without updates and deletes all creates of the same content that return get the same id |
| Dedup.CreatorsDoNotFail | backend/services/memory_service.py:606-619 | and the recheck of a lost race always finds the winner |
| ChatUpsert.CollapseDuplicateSourceIds | backend/services/ai_chat_service.py:538-551 | the backward loop with its set of seen ids keeps the last turn of each id |
| ChatUpsert.CollapseKeepsLast | backend/services/ai_chat_service.py:538-551 | a turn is kept exactly when it has no id or is the last of its id |
| ChatUpsert.CollapseIsUnique | backend/services/ai_chat_service.py:538-551 | no id is kept twice |
| ChatUpsert.Conversation.PersistTurns | backend/services/ai_chat_service.py:554-621 | the loop of lookups, updates and inserts, when an insert fails, and how many rows were added |
| ChatUpsert.Conversation.UpsertChat | backend/services/ai_chat_service.py:720-875 | creation, the equal-hash no-op, the update with its kept namespace, and the rollback on failure |
| ChatUpsert.Conversation.AppendTurns | backend/services/ai_chat_service.py:969-1003 | appended turns leave the hash and the home alone |
| ChatUpsert.Conversation.MoveChat | backend/services/ai_chat_service.py:900-966 | a move takes all artifact rows along and clears the requested namespace |
| ChatHistory.CollapseKeepsPush | backend/services/ai_chat_service.py:538-551 | last-write-wins over the collapsed push is last-write-wins over the push |
| ChatHistory.StoreFits | backend/services/ai_chat_service.py:554-621 | storing a push fails exactly when it would add a second turn with the empty id, and otherwise makes the rows hold the last-write-wins map |
| ChatHistory.UpsertsRefineLastWrite | backend/services/ai_chat_service.py:720-1003 | after any run of upserts, moves and agreeing appends, source ids are unique and every stored turn is what a last-write-wins map over all accepted pushes holds, despite the hash that skips pushes |
| ChatHistory.RepushAfterAppendIff | backend/services/ai_chat_service.py:969-1003 | after an append, skipping a repeat of the last payload is right if and only if the appended turns agree with that payload on every id in both (or it would be refused) |
| ChatHistory.UpsertArrives | backend/services/ai_chat_service.py:720-875 | a push that is neither skipped nor refused leaves its title, project and hash; the chat goes to the namespace it was resolved to if it is new, in the inbox or told to, and otherwise stays with what it had |
| ChatHistory.UpsertIsAccepted | backend/services/ai_chat_service.py:720-875 | a push is refused for nothing but a second turn with the empty id |
| ChatHistory.MoveArrives | backend/services/ai_chat_service.py:900-966 | a move puts the chat in the target, clears the requested namespace and changes nothing else |
| ChatHistory.AppendKeepsTheRest | backend/services/ai_chat_service.py:969-1003 | an append changes nothing but the turns, and nothing at all when refused or without a chat |
| ChatHistory.RefusedChangesNothing | backend/services/ai_chat_service.py:720-966 | an invalid payload, an empty target or a conflict changes nothing |
| ChatHistory.LastTurnIsStored | backend/services/ai_chat_service.py:554-621 | a turn is stored with all its fields, those the hash does not cover and the home of its artifacts included |
| ChatHistory.ArtifactsFollowTheChat | backend/services/ai_chat_service.py:624-714 | in every run every artifact row carries the namespace, project and platform of its chat |
| ChatHistory.MovedChatStays | backend/services/ai_chat_service.py:827-846 | no run of upserts without a namespace or project, and of appends, moves a chat that is outside the inbox, whatever the mappings and the matcher answer |
| AuditChain.VerifyAuditChain | backend/services/audit_service.py:443-480 | the report is empty, valid or tampered as the rows chain, and its errors are exactly the rows that do not, in order |
| AuditChain.AuditTable.LogAuditEvent | backend/services/audit_service.py:167-202 | the row appended chains to the user's latest row, or to the start |
| AuditChain.FirstHash | backend/services/audit_service.py:107-202 | the hash of a user's first event in full: the start mark, the action, the resource or "none", and the time |
| AuditChain.HonestLogsVerify | backend/services/audit_service.py:127-202 | however users interleave, with increasing times each user's log verifies |
| AuditChain.PrefixVerifies | backend/services/audit_service.py:443-446 | and so does every prefix, which is what a limit leaves |
| AuditChain.CoveredBinds | backend/services/audit_service.py:120 | two hashed texts are equal if and only if predecessor, time, and action and resource joined are, whatever colons these hold |
| AuditChain.CoveredIsInjective | backend/services/audit_service.py:120 | without colons in the resources the hashed text determines its four parts, although actions and times contain colons |
| AuditChain.JoinedIff | backend/services/audit_service.py:120 | action and resource joined are equal if and only if both parts are, or a colon was moved from the one to the other |
| AuditChain.LastHashBinds | backend/services/audit_service.py:107-121 | two logs that verify end in the same hash if and only if they have the same length and agree on every time and every action and resource joined |
| AuditChain.LastHashBindsPlain | backend/services/audit_service.py:107-121 | where no resource id has a colon, such logs agree on every action, resource and time |
| AuditChain.ChangedRowIsReported | backend/services/audit_service.py:449-480 | a row changed in place is reported, alone, if and only if its time or its action and resource joined changed |
| AuditChain.UnreportedChangeIff | backend/services/audit_service.py:449-480 | a change leaves the log valid if and only if it keeps the time and changes neither action nor resource, or moves a colon between them |
| AuditChain.RemovedRowIsReported | backend/services/audit_service.py:449-480 | removing one row goes unnoticed if and only if it is the last |
| AuditChain.ForkIsReported | backend/services/audit_service.py:167-182 | an event chained to an earlier row, or placed before the end, makes the log read as tampered, and only then |
| AuditChain.OutcomeIsNotBound | backend/services/audit_service.py:107-121 | outcomes can be rewritten without a trace |
| AuditChain.ColonsShift | backend/services/audit_service.py:120 | a colon in a resource id lets part of it pass for the action |
| Coalescing.StepKeepsLock | backend/services/compression_pipeline.py:480-533 | every step keeps the lock with exactly the task that gates or generates under it |
| Coalescing.OneGenerationInFlight | backend/services/compression_pipeline.py:473-533 | without prewarming at most one generation is in flight in every interleaving, forced ones included |
| Coalescing.RecordsAreFew | backend/services/compression_pipeline.py:495-533 | without force and prewarming the recorded counts grow by at least 3, so n memories allow at most 1 + (n - 2) / 3 of them |
| Coalescing.DebounceIff | backend/services/compression_pipeline.py:495-500 | the debounce lets a task through if and only if it is forced, nothing was recorded, or three memories are new |
| Coalescing.LoneWriterRecords | backend/services/compression_pipeline.py:429-624 | an undisturbed writer that gets through leaves a record of just what it counted, the tier L3 or L3.1, and the lock free |
| Coalescing.TooFewMakeNone | backend/services/compression_pipeline.py:470-500 | and one that does not leaves nothing |
| Coalescing.GateIff | backend/services/compression_pipeline.py:502-523 | a memory that is nothing new is recorded without a summary, unless the run is forced |
| Coalescing.ModelIsForFive | backend/services/compression_pipeline.py:549-577 | the language model is asked for five memories or more |
| Coalescing.PrewarmRecords | backend/services/compression_pipeline.py:1441-1486 | a stale prewarm makes its summary whoever has the lock |
| Coalescing.EnvironmentActs | backend/services/compression_pipeline.py:577-608 | a synthesis leaves L3.1 whatever was there, and a summary of another user leaves that alone |
| Coalescing.FailureRecordsNothing | backend/services/compression_pipeline.py:536-608 | a failed task leaves no record, nor does a prewarm of a fresh summary |
| Coalescing.SynthesisStays | backend/services/compression_pipeline.py:577-608 | no run takes a policy from L3.1 back to L3, prewarming, force and other users included |
| Coalescing.PrewarmOverlapsIff | backend/services/compression_pipeline.py:1441-1486 | from a start some run has two generations in flight if and only if there is a prewarm and another task |
| Coalescing.SkippedWriterIsCoveredIff | backend/services/compression_pipeline.py:486-493 | in every interleaving a writer that finds the lock held leaves no record, and what the holder records covers what the writer counted if and only if all of it was there when the holder counted |
| Coalescing.SkippedWriterIsLost | backend/services/compression_pipeline.py:486-493 | a run that leaves three memories without a summary because their writer found the lock held |
| CircuitBreaker.CognitionBridge.CircuitOpen | backend/services/cognition_bridge.py:107-115 | reading the property forgets the failures once the cooldown is over |
| CircuitBreaker.CognitionBridge.Request | backend/services/cognition_bridge.py:155-215 | when a request is sent, and the accounting of a good answer, of a 2xx answer with an unreadable body, and of a failure |
| CircuitBreaker.NothingSentWhileOpen | backend/services/cognition_bridge.py:107-171 | in every run no request is sent in the 60 seconds after a trip, however often the state is read |
| CircuitBreaker.FifthFailureTrips | backend/services/cognition_bridge.py:189-192 | the fifth failure opens the circuit for one minute |
| CircuitBreaker.GoodAnswerForgives | backend/services/cognition_bridge.py:178-180 | after a good answer four more requests can fail, however, and the circuit is closed |
| CircuitBreaker.LeastSpan | backend/services/cognition_bridge.py:107-215 | the shortest time in which given failing answers can come, over all schedules: a cooldown for every trip that is sat out; no schedule beats it and one attains it |
| CircuitBreaker.StreakTakesCooldownsIff | backend/services/cognition_bridge.py:107-215 | k given failures span at least (k - 1) / 5 cooldowns on every schedule if and only if those wiped by unreadable bodies and those on the counter are five at most |
| CircuitBreaker.StreakTakesCooldowns | backend/services/cognition_bridge.py:107-215 | a streak of k failures without unreadable bodies spans at least (k - 1) / 5 cooldowns |
| CircuitBreaker.UnreadableBodiesNeverTrip | backend/services/cognition_bridge.py:178-206 | any number of unreadable bodies can come at once, and the circuit stays closed |
| CircuitBreaker.ProbeDoesNotTrip | backend/services/cognition_bridge.py:110-115 | a failed request after the cooldown leaves the circuit closed |
| RateLimit.Limiter.Check | backend/core/rate_limit.py:24-43 | the counter after a request, and whether it passes |
| RateLimit.IntervalBound | backend/core/rate_limit.py:24-43 | on every schedule at most 2 * max - 1 requests pass in any half-open interval of one window |
| RateLimit.BoundIsReached | backend/core/rate_limit.py:3-6 | for every limit and window some schedule reaches this within two seconds |
| Decay.Memories.ApplyWeightDecay | backend/services/consolidation_service.py:74-118 | the loop over pages by offset decays every pending row of the namespace exactly once and touches no other |
| Decay.DecayIsGeometric | backend/services/consolidation_service.py:99 | k runs give the plain geometric decay, cut off at 0.01 once at the end |
| Decay.DecayedWeight | backend/services/consolidation_service.py:99 | in figures: after k runs a weight w is w * (1 - rate)^k, or 0.01 if that is less |
| Decay.ZeroRevives | backend/services/consolidation_service.py:99 | a stored zero decays as if it were one |
| Gatekeeper.Engine.Evaluate | backend/services/gatekeeper_service.py:354-445 | the first rule that matches in full and has a known action decides, with its statistics and consent row; no rule means denial |
| Gatekeeper.ScopeMatchesIff | backend/services/gatekeeper_service.py:584-595 | a scope matches itself, "admin:*" everything, and one that ends in ":*" what continues it from the colon on |
| Gatekeeper.ConcernsIff | backend/services/gatekeeper_service.py:577-607 | a rule concerns the agent it names or all, in the namespaces of its filter, or where rule or request name none |
| Gatekeeper.CatchAllDecides | backend/services/gatekeeper_service.py:365-377 | a rule for everything in front decides everything but for bearers |
| Gatekeeper.DecidesWithinItsHours | backend/services/gatekeeper_service.py:610-627 | a rule decides from its first hour up to but not in its last |
| Gatekeeper.BearersArePermitted | backend/services/gatekeeper_service.py:345-353 | callers without an agent are let through |
| Gatekeeper.NoRuleMeansNo | backend/services/gatekeeper_service.py:436-445 | and others are not, without a rule |
| Gatekeeper.ListNamespaces | backend/services/memory_service.py:1136-1177 | everything for a caller without an agent, an administrator or without a gatekeeper; else, in order, the namespaces whose first concerned rule allows; filtering the rules beforehand changes nothing |
| Gatekeeper.ReadRuleLists | backend/services/memory_service.py:1142-1177 | a single rule lists a namespace if it covers the reading of memories, allows, and its filter lets the namespace through |
| Gatekeeper.AlwaysPermitsIff | backend/services/gatekeeper_service.py:354-445 | the engine allows in every hour if and only if in every hour an allowing rule is open and every blocking rule is open only behind an allowing one |
| Gatekeeper.BatchAgreesIff | backend/services/memory_service.py:1136-1177 | list and engine agree on a namespace in every hour if and only if the caller has no agent; or it is listed, the allowing rules cover all hours and every blocking rule is open only behind one; or it is not listed and every allowing rule is open only behind a blocking one |
| Gatekeeper.BatchRefinesEngine | backend/services/memory_service.py:1136-1177 | without an agent, or when all rules are inside their hours and have known actions, the list shows exactly what the engine allows |
| Gatekeeper.ClosedRuleStillLists | backend/services/gatekeeper_service.py:608-627 | outside its hours an allowing rule still lists what the engine refuses |

## Left out

- The phrase miner of the codec (kemory/compression/aaak.py:82-102): the phrases are a parameter of the right shape.
- AaakRoundTrip.RoundTripIff: metadata given as a string must have no exotic line break, and when the header cuts two phrases to the same word, no phrase may start with a digit. For content in which a token can be mistaken (or that is not safe to substitute in, when the header cuts two phrases alike) the condition is what the passes make of that content; direct ones are in AaakParse, AaakLimits and AaakDigits.
- AaakParse.LetterTextSurvivesIff: when one of two such phrases is a front of the other, AaakParse.DecoderReads still says what a text comes back as, but no shorter condition is given.
- AaakRoundTrip.MemorySurvivesIff: the same scope as RoundTripIff.
- AaakRoundTrip.MinedRoundTripIff: the same scope as RoundTripIff.
- AaakDigits.DigitFirstPhraseIff: only texts encoded as two tokens side by side.
- AaakDigits.StraddleIff: only texts whose encoded form is a dollar and a token.
- AaakDocument.DecodeAaak: a dictionary entry written by hand whose value is a bare `~` makes the decoder raise a `TypeError`; the model skips it. The encoder never writes one, since its phrases start with a word.
- Digits outside ASCII in the dictionary expression `\$\d+`.
- Numbers and booleans as field values other than metadata: the codec writes their text and reads back a string, and the model only says that they do not survive.
- kemory/compression/cache.py, whose key covers memory ids only.
- TieredCache: eviction for space is an arbitrary drop of an entry, and a corrupt Redis entry is a read failure. The interleaved system, like those of Dedup and Coalescing, is a state machine on values, not on objects.
- Resolvers.GrantIffRole: the parsing of tokens and headers is not part of the decision.
- `_parse_types` and the payload of hydrated timeline entries.
- Session digest: rendering, background context, rehydration and the extractive fallback; the language model is any function of the previous digest and the batch.
- DigestRefresh.EachTurnCompactedOnce: refreshes with a raw tail, as the public operation always has (ZeroTailCompactsTwice is about the others), and sessions whose exchanges come from a chat alone; the merge with memories of the session (session_digest_service.py:420-436) is not modelled, nor the title line in front of an exchange, which changes with the title.
- Dedup: the semantic layer and expiry; of the access statistics only the row lock is kept. Statements see committed rows; an update of a row another transaction has open waits.
- ChatUpsert.Conversation.UpsertChat: artifact dates and metadata are not part of the model, and with them the backfill of dates on a no-op push.
- Chat upsert: the mapping table and the matcher (any answer); background classification, which moves a chat without its artifacts; concurrent upserts of one conversation.
- ChatHistory.UpsertsRefineLastWrite: turns without a source id are appended by every push that is not skipped and are not in the map; the fields the hash does not cover (HTML, metadata, parent turn) are not claimed to be current.
- AuditChain.HonestLogsVerify: needs increasing times for each user; ForkIsReported says what happens otherwise.
- AuditChain.LastHashBinds: a missing resource id and one that reads "none" are the same to the hash, so it speaks of the shown resource.
- Coalescing: the cosine gates, one after the other in the code, are one choice of the environment; a summary counts as covering what its task counted, although only the 50 newest memories are its sources; session-level and L3.1 runs appear only as writers of the tier.
- CircuitBreaker: overlapping requests.
- RateLimit: INCR and EXPIRE are one step; Redis errors let a request pass and are not modelled.
- Decay: the order of rows between pages is assumed stable, which the query does not ask for; floating point is real arithmetic.
- Gatekeeper: glob matching is a parameter; an agent id that is no UUID raises an error before any rule is read, which is not modelled; JIT consent resolution is not modelled.
- TieredCache.InvalidationTakesEffect: with a working Redis; when the delete fails, the shared entry lives on for its 60 seconds.
- PII and injection scanning, tag scoring, similarity thresholds, enrichment, MCP, CLI, dashboard, authentication and storage plumbing: heuristics or I/O.
