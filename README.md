# Easy-Conversation topic pipeline, in Dafny

Easy-Conversation takes a pasted chat transcript ("User: …", "AI: …" lines) and splits it into
topics. Each topic has a title, a summary and a character span. The viewer shows the topics
beside the transcript, which it has segmented into role-tagged messages. A plan (free, pro or
business) limits how many conversations a user may save.

This project models the deterministic core of that system:

- `text.dfy` (module `Text`): the string operations the code relies on. These are `trim`,
  `indexOf`, `split` on one character, `join`, ASCII `toLowerCase` and `slice`, each with its
  meaning stated and proved.
- `extraction.dfy` (module `Extraction`): `lib/deepseek-service.ts`. This covers the heuristic
  extractor `getMockTopicExtraction` with its `generateTopicTitle` and `generateTopicSummary`,
  the reply cleaner `validateAndCleanResult`, and `extractTopics`. The remote language-model
  exchange is a `Reply` input: either no usable reply, or the record list it parsed to. The
  two loops of the source (`forEach` with a moving search position, and the candidate filter)
  are methods proved equal to the functions the properties are stated on.
- `viewer.dfy` (module `Viewer`): `formatConversation` and `getTopicForPosition` of
  `components/conversation/conversation-viewer.tsx`. The offset loop is a method proved equal
  to a fold over the kept lines.
- `plans.dfy` (module `Plans`): the `PLANS` table of `lib/stripe.ts`, and `getUserPlan`,
  `getConversationLimit` and `canSaveConversation` of `lib/subscription-service.ts`.
- `route.dfy` (module `Route`): the `POST` handler of `app/api/extract-topics/route.ts`. JSON
  field values carry their JavaScript truthiness.
- `input.dfy` (module `Input`): `handleSubmit` of `components/conversation/conversation-input.tsx`.
  The form is a class whose fields are the form state plus the record of `onAnalyze` calls.
- `database.dfy` (module `Database`): `DatabaseService` of `lib/database.ts`. It is a class
  whose three stored lists are `seq` fields. Ids and timestamps are parameters.
- `usage.dfy` (module `Usage`): `UsageWarningBanner` and the `UsageLimitModal` rules. Numbers
  follow JavaScript division, so a zero limit gives an infinity or NaN.

## Model

| member | source | states |
|---|---|---|
| Text.TrimSpec | lib/deepseek-service.ts:102 | `trim()` is the contiguous piece of the input left after dropping whitespace at both ends: everything dropped is whitespace, and the piece neither starts nor ends with it |
| Text.BlankIffAllWhitespace | components/conversation/conversation-input.tsx:29 | `!s.trim()` holds exactly when every character of `s` is whitespace |
| Text.IndexOf | lib/deepseek-service.ts:103 | `indexOf(t, from)` is the first index at or after `from` where `t` occurs, or -1 exactly when it occurs nowhere from there |
| Text.SplitOn | components/conversation/conversation-viewer.tsx:52 | `split("\n")` gives one more piece than there are separators, and no piece contains a separator |
| Text.JoinSplit | components/conversation/conversation-viewer.tsx:52 | joining the pieces of a split with the separator gives back the text |
| Text.TakeWordsIsPrefix | lib/deepseek-service.ts:150 | `split(" ").slice(0, n).join(" ")` is the prefix of the text holding its first n words: it has n - 1 spaces (fewer if the text has fewer) and ends at a space or the end of the text |
| Extraction.TokenAt | lib/deepseek-service.ts:98 | the length of the role token found at an index, or 0; a found token is at least 3 characters long and fits inside the text |
| Extraction.TokenAtMatches | lib/deepseek-service.ts:98 | a token is found exactly when `User:`, `AI Assistant:` or `AI:` matches there ignoring case, and the text it covers, lower-cased, is one of the three tokens |
| Extraction.FirstTokenLeftmost | lib/deepseek-service.ts:98 | the split finds the leftmost role token: one starts where it stops, none before |
| Extraction.RolePiecesLaid | lib/deepseek-service.ts:98 | the pieces the role split produces are the conversation's own text, in order, without overlap |
| Extraction.RolePiecesSplit | lib/deepseek-service.ts:98 | the split covers the text: the first piece starts where the split starts, the last ends at the end of the text, no role token starts inside a piece, and consecutive pieces are separated by exactly one token |
| Extraction.NonBlankLaid | lib/deepseek-service.ts:98 | dropping blank pieces keeps the layout, and every piece that is not blank survives |
| Extraction.NonBlankKeeps | lib/deepseek-service.ts:98 | every piece that is not blank survives the filter |
| Extraction.NonBlankAppend | lib/deepseek-service.ts:98 | the filter works piece by piece: filtering a concatenation concatenates the filtered parts |
| Extraction.NonBlankOne | lib/deepseek-service.ts:98 | a single piece is kept exactly when it is not blank |
| Extraction.SectionsLaid | lib/deepseek-service.ts:98-99 | the sections walked by the extractor are in-place, ordered, disjoint pieces of the conversation, and every non-blank piece of the role split is among them |
| Extraction.SectionsWithoutTokens | lib/deepseek-service.ts:98-99 | a non-blank conversation without any role token is a single section, the whole text at index 0 |
| Extraction.FirstKeyword | lib/deepseek-service.ts:142-143 | the first keyword in list order that occurs in the lower-cased text, and none earlier in the list does |
| Extraction.TopicTitle | lib/deepseek-service.ts:140-152 | the title is "<Keyword> Discussion" for the first keyword in list order; without a keyword it is the first three words plus "..." when these exceed 3 characters, else "Discussion Topic"; never empty |
| Extraction.TitleMayExceedFifty | lib/deepseek-service.ts:150-151 | a 48-character word with no keyword gives a 51-character title |
| Extraction.Fragments | lib/deepseek-service.ts:156 | splitting on runs of `.!?` gives at least one fragment, none holding a terminator |
| Extraction.Runs | lib/deepseek-service.ts:156 | the separators the split drops are non-empty runs of terminators; a text starting with a terminator starts with a run holding it |
| Extraction.FragmentsRuns | lib/deepseek-service.ts:156 | the fragments and the dropped runs interleave back to the text, with one fragment more than runs; every fragment between two runs is non-empty; the first is empty exactly when the text starts with a terminator |
| Extraction.FragmentsInterleave | lib/deepseek-service.ts:156 | the fragments with the runs between them give back the text |
| Extraction.FragmentsInterior | lib/deepseek-service.ts:156 | no fragment between two runs is empty, since a run is maximal |
| Extraction.FragmentsHead | lib/deepseek-service.ts:156 | the first fragment is empty exactly when the text starts with a terminator |
| Extraction.FirstSentence | lib/deepseek-service.ts:156-157 | the first fragment whose trimmed length exceeds 10, with none before it |
| Extraction.TopicSummary | lib/deepseek-service.ts:154-162 | the fixed sentence when no fragment's trimmed length exceeds 10; otherwise the first such fragment, trimmed, when it has at most 120 characters, and its first 120 characters followed by "..." when it is longer; always 1 to 123 characters |
| Extraction.SummaryEllipsisIffCut | lib/deepseek-service.ts:158-159 | the summary ends in "..." exactly when the first sentence was longer than 120 characters |
| Extraction.Scan | lib/deepseek-service.ts:101-122 | one topic per section whose trimmed text exceeds 100 characters |
| Extraction.Qualifying | lib/deepseek-service.ts:102 | the sections whose trimmed text exceeds 100 characters, each one of the sections |
| Extraction.QualifyingComplete | lib/deepseek-service.ts:102 | every section whose trimmed text exceeds 100 characters is among the qualifying ones, so there are none exactly when no section qualifies |
| Extraction.SectionDescribed | lib/deepseek-service.ts:103-118 | a qualifying section searched for from at or before its place yields a topic with text whose title comes from its first 20 words, whose summary is its summary, and whose span is exactly its trimmed text; the search resumes no later than its end |
| Extraction.ScanTopics | lib/deepseek-service.ts:99-122 | the k-th scanned topic belongs to the k-th qualifying section: its title and summary come from that section's trimmed text, and its span is exactly where that text stands in the conversation |
| Extraction.HeuristicTopics | lib/deepseek-service.ts:92-135 | when some section qualifies, each of the (at most 8) heuristic topics describes the qualifying section of the same index |
| Extraction.ScanSpans | lib/deepseek-service.ts:103-104 | every scanned topic's span is where the forward search found its section: inside the conversation, past the previous span, and longer than 100 |
| Extraction.FoundInPlace | lib/deepseek-service.ts:103-104 | a section's trimmed text is found at or after the search position and ends no later than the section, so the search never runs past it |
| Extraction.Capped | lib/deepseek-service.ts:124-135 | the default topic when nothing was found, else the first `min(8, n)` found; always 1 to 8 topics |
| Extraction.HeuristicExtraction | lib/deepseek-service.ts:92-138 | 1 to 8 topics; the default topic exactly when no section qualifies, else `min(count, 8)` topics; the fixed conversation summary |
| Extraction.HeuristicSpans | lib/deepseek-service.ts:101-135 | every heuristic topic has `0 <= start <= end <= length`, and successive spans ascend without overlap |
| Extraction.CappedSpans | lib/deepseek-service.ts:125-135 | the default topic and the 8-topic cut keep spans in range and ordered |
| Extraction.ScanStep | lib/deepseek-service.ts:101-122 | one section's step: its topic, if it qualifies, comes before those of the later sections, searched from its end |
| Extraction.LocateSection | lib/deepseek-service.ts:103-109 | the method computes the section's topic and its end as the scan specifies |
| Extraction.VisitSection | lib/deepseek-service.ts:101-121 | the callback for one section keeps "collected so far plus scan of the rest" equal to the whole scan |
| Extraction.CollectTopics | lib/deepseek-service.ts:99-122 | the `forEach` with its moving search position pushes exactly the scan's topics |
| Extraction.CapTopics | lib/deepseek-service.ts:125-135 | the method's topics are the capped list |
| Extraction.MockTopicExtraction | lib/deepseek-service.ts:92-138 | `getMockTopicExtraction` returns the heuristic result |
| Extraction.CleanTopic | lib/deepseek-service.ts:176-181 | the title is the candidate's first `min(50, length)` characters and the summary its first `min(150, length)`; the start is the candidate's start raised to 0, the end its end lowered to the conversation length; the result is a well-formed cleaned topic |
| Extraction.CleanedSpanUnordered | lib/deepseek-service.ts:179-180 | cleaning does not order a span: start can exceed end, and start can exceed the length |
| Extraction.CleanTopics | lib/deepseek-service.ts:168-183 | the usable candidates cleaned, in input order, with no cap; empty exactly when none is usable; all kept when all are usable |
| Extraction.CleanTopicsAppend | lib/deepseek-service.ts:169-183 | cleaning works candidate by candidate: it distributes over concatenation |
| Extraction.RecleanIdentity | lib/deepseek-service.ts:177-180 | re-cleaning well-formed topics changes nothing exactly when no title exceeds 50 and no summary 150 characters |
| Extraction.CleanTopicsIdempotent | lib/deepseek-service.ts:168-183 | cleaning a cleaned list changes nothing |
| Extraction.CleanedResult | lib/deepseek-service.ts:164-190 | the topics are the cleaned candidates when any survive, else the whole heuristic list; at least one topic and a non-empty summary |
| Extraction.CleanedFallback | lib/deepseek-service.ts:166-189 | without a topic list or a usable candidate the topics are the whole heuristic list; otherwise they are exactly the usable candidates, cleaned, in input order; the reply's summary is kept unless empty, then "Conversation analysis completed." |
| Extraction.CleanedResultIdempotent | lib/deepseek-service.ts:164-190 | a result built from surviving candidates, fed back to the cleaner, comes out unchanged |
| Extraction.CleanCandidates | lib/deepseek-service.ts:166-184 | the filtering loop pushes exactly the cleaned usable candidates |
| Extraction.ValidateAndCleanResult | lib/deepseek-service.ts:164-190 | `validateAndCleanResult` returns the cleaner's result |
| Extraction.ExtractTopics | lib/deepseek-service.ts:18-90 | no usable reply gives exactly the heuristic result; a parsed reply gives the cleaner's result, so its surviving cleaned candidates, or the heuristic topics when none survives; never an empty topic list, and a parsed reply always has a summary |
| Viewer.Classify | components/conversation/conversation-viewer.tsx:57-81 | a blank line gives no message, any other line exactly one, at the current offset |
| Viewer.Kept | components/conversation/conversation-viewer.tsx:52 | the filter keeps only non-blank lines and never adds any; which lines and in what order is stated by `KeptAt`, `KeptAppend` and `KeptEmpty` |
| Viewer.KeptAt | components/conversation/conversation-viewer.tsx:52 | every non-blank line is kept, at the index given by the number of lines kept before it |
| Viewer.KeptAppend | components/conversation/conversation-viewer.tsx:52 | the filter works line by line: filtering a concatenation concatenates the filtered parts |
| Viewer.KeptEmpty | components/conversation/conversation-viewer.tsx:52 | nothing is kept exactly when every line is blank |
| Viewer.FormatLoop | components/conversation/conversation-viewer.tsx:53-83 | the `forEach` with its running offset, run with a callback, yields that callback's messages line by line, each line's computed at the offset the earlier lines advanced it to |
| Viewer.FormatConversation | components/conversation/conversation-viewer.tsx:50-86 | `formatConversation` runs the loop with the line callback over the non-blank lines and returns the segmentation of the text |
| Viewer.ClassifyKinds | components/conversation/conversation-viewer.tsx:58-81 | a non-blank line is `user` exactly when its lower-cased trimmed form starts with "user:", `ai` exactly when it otherwise starts with an assistant prefix, else `text` holding the whole trimmed line; user content is the trimmed text after 5 characters |
| Viewer.AiContentAfterPrefix | components/conversation/conversation-viewer.tsx:64-74 | after an assistant prefix the first colon is the prefix's own, so the content is the trimmed text after the prefix |
| Viewer.SegmentAt | components/conversation/conversation-viewer.tsx:52-84 | the k-th message is the k-th non-blank line's, at the offset the kept lines before it add up to |
| Viewer.SegmentLength | components/conversation/conversation-viewer.tsx:52-84 | one message per non-blank line; none exactly when every line is blank |
| Viewer.SegmentOffsets | components/conversation/conversation-viewer.tsx:54-82 | the first offset is 0, and each next one is the previous plus the previous kept line's untrimmed length plus 1 |
| Viewer.KeptExtent | components/conversation/conversation-viewer.tsx:52 | dropping blank lines never lengthens the counted text, and keeps it the same exactly when no line was blank |
| Viewer.JoinedLineStart | components/conversation/conversation-viewer.tsx:52 | line j of the text starts at the total length of the lines before it plus their newlines |
| Viewer.SegmentDrift | components/conversation/conversation-viewer.tsx:52-83 | the message of a non-blank line carries an offset at most the line's true start, equal exactly when no blank line precedes it |
| Viewer.SegmentInPlaceAt | components/conversation/conversation-viewer.tsx:53-83 | with blank lines counted, each message keeps its place, speaker and content, and its offset is its line's true start |
| Viewer.TopicForPosition | components/conversation/conversation-viewer.tsx:90-92 | the first topic in list order whose span contains the position, both ends included; nothing exactly when no topic does |
| Plans.GetUserPlan | lib/subscription-service.ts:62-67 | "free" without a subscription or when its status is not "active", otherwise the subscription's plan |
| Plans.ConversationLimitIn | lib/subscription-service.ts:69-80 | 3 when the table is not loaded; the table's limit for a known, non-empty plan; for a missing, empty or unknown plan the free limit when the table has a non-zero one, else 3 |
| Plans.ConversationLimit | lib/subscription-service.ts:69-80 | with the `PLANS` table the limit is always 3, 30 or -1 |
| Plans.PlanLimits | lib/stripe.ts:18-34 | free gives 3, pro 30, business -1 (unlimited), and any unknown or missing plan 3 |
| Plans.CanSaveByPlan | lib/subscription-service.ts:82-85 | saving is allowed exactly below 3 for free and unknown plans, below 30 for pro, and always for business |
| Plans.CanSaveAntiMonotone | lib/subscription-service.ts:82-85 | if saving is allowed at some usage, it is allowed at every lower usage |
| Route.HandlePost | app/api/extract-topics/route.ts:4-32 | a body that is not JSON gives 500; a missing, falsy or non-string conversation gives 400 "Conversation content is required"; a non-empty string shorter than 50 characters gives 400 "Conversation is too short for topic extraction"; status 200 exactly for a string of at least 50 characters, whose payload passes the extractor's topics and summary through, echoes the content, and defaults a falsy title to "Untitled Conversation" |
| Route.LengthBoundary | app/api/extract-topics/route.ts:12-14 | 49 untrimmed characters are rejected as too short, 50 proceed |
| Route.TypeCheckFirst | app/api/extract-topics/route.ts:8-14 | a non-string conversation is reported as missing, never as too short |
| Input.SubmitTitle | components/conversation/conversation-input.tsx:39 | the trimmed title when non-empty, else "Conversation " and the date |
| Input.Decide | components/conversation/conversation-input.tsx:29-40 | a blank transcript is rejected as empty, exactly; a non-blank one trimmed below 100 as too short, exactly; otherwise the trimmed transcript and the defaulted title are analysed |
| Input.ConversationInput.HandleSubmit | components/conversation/conversation-input.tsx:25-41 | the error is cleared; a rejection sets its message and calls nothing; an accepted submit calls `onAnalyze` exactly once with the trimmed transcript and title; the fields are untouched |
| Input.AcceptedPassesServer | components/conversation/conversation-input.tsx:34-40 | a transcript the form accepts passes the endpoint's checks, and its content and title come back unchanged |
| Database.Find | lib/database.ts:52 | `find(...) \|\| null`: the first matching element, or nothing exactly when none matches |
| Database.FilterMembers | lib/database.ts:83 | `filter` keeps only matching elements of the list, and keeps every matching element |
| Database.FilterCount | lib/database.ts:83 | `filter` keeps each matching element as many times as the list holds it, and no other |
| Database.FilterAppend | lib/database.ts:115 | filtering a concatenation concatenates the filtered parts, so insertion order is kept |
| Database.FilterSnoc | lib/database.ts:74-83 | filtering after one push adds that element at the end exactly when it matches |
| Database.Stamp | lib/database.ts:98-103 | each input becomes one record in the same place, with its own id and its own creation time, the conversation id, and its own fields unchanged |
| Database.TopicsRoundTrip | lib/database.ts:93-116 | after storing topics under a conversation, reading that conversation gives the earlier ones then the new ones in order, and stripping the stamps gives back the inputs |
| Database.FreshTopicsRoundTrip | lib/database.ts:93-116 | storing topics under a conversation that had none and reading them back, stamps stripped, gives exactly the inputs |
| Database.DatabaseService.constructor | lib/database.ts:118-135 | the store starts with three empty lists |
| Database.DatabaseService.CreateUser | lib/database.ts:32-47 | appends exactly the new user, with no duplicate-email check; the lookup by that email then gives the earlier user if there was one, else the new one; the other lists are unchanged |
| Database.DatabaseService.GetUserByEmail | lib/database.ts:49-53 | the first stored user, in insertion order, with that email; nothing exactly when none has it |
| Database.DatabaseService.GetUserById | lib/database.ts:55-59 | the first stored user, in insertion order, with that id; nothing exactly when none has it |
| Database.DatabaseService.CreateConversation | lib/database.ts:62-78 | appends exactly one record with the owner, title, content and its own created and updated times; the owner's conversations become the old ones plus it, every other user's are unchanged; the other lists are unchanged |
| Database.DatabaseService.GetConversationsByUserId | lib/database.ts:80-84 | the stored conversations of that user, each as many times as stored, no others, in stored order (by `FilterAppend`) |
| Database.DatabaseService.GetConversationById | lib/database.ts:86-90 | the first stored conversation, in insertion order, with that id; nothing exactly when none has it |
| Database.DatabaseService.CreateTopics | lib/database.ts:93-110 | appends the stamped inputs in order after the stored topics, each with its own id and time; reading that conversation then gives the old topics plus the new ones; the other lists are unchanged |
| Database.DatabaseService.GetTopicsByConversationId | lib/database.ts:112-116 | the stored topics of that conversation, each as many times as stored, no others, in stored order (by `FilterAppend`) |
| Database.DuplicateEmailKeepsFirst | lib/database.ts:32-53 | creating a user with a taken email leaves the lookup on the earlier user |
| Database.NewUserFound | lib/database.ts:32-53 | a new user with an unused email is found by it |
| Database.ConversationRoundTrip | lib/database.ts:62-90 | after a create, the owner's list is the old list plus the new record, and it is found by a fresh id |
| Usage.Divide | components/usage-warning-banner.tsx:19 | JavaScript division: exact for a non-zero divisor; +Infinity, -Infinity or NaN by the dividend's sign for zero |
| Usage.MinWith | components/usage-warning-banner.tsx:42 | `Math.min` with a constant: a finite or positive infinite value is capped, NaN and -Infinity pass through |
| Usage.PercentageThreshold | components/usage-warning-banner.tsx:19-20 | for a positive limit, reaching c percent is exactly `100 * usage >= c * limit` (and likewise for strictly above) |
| Usage.WarningBanner | components/usage-warning-banner.tsx:16-57 | hidden for an unlimited plan; shown exactly at 80 percent or more; at the limit exactly when usage reaches it; progress between 80 and 100; remaining count only when not at the limit |
| Usage.BannerRules | components/usage-warning-banner.tsx:19-23 | for a positive limit the banner shows exactly when `100 * usage >= 80 * limit`; at the limit implies shown; the remaining count is positive |
| Usage.BannerZeroLimit | components/usage-warning-banner.tsx:19-21 | a zero limit shows the at-limit banner for any positive usage and nothing for zero usage |
| Usage.GetUpgradeOptions | components/usage-limit-modal.tsx:22-52 | free is offered Pro then Business, pro is offered Business, any other plan nothing |
| Usage.UpgradesRaiseLimit | components/usage-limit-modal.tsx:22-52 | every option offered is a plan with more room than the current one, and nothing is offered exactly when no plan has more room |
| Usage.ModalPercentage | components/usage-limit-modal.tsx:20 | 0 for an unlimited plan, otherwise the usage percentage |
| Usage.Badge | components/usage-limit-modal.tsx:84 | destructive exactly at the limit, secondary exactly when otherwise strictly above 80 percent, else outline; never secondary for an unlimited plan |
| Usage.ModalProgress | components/usage-limit-modal.tsx:88 | no progress bar exactly for an unlimited plan; for a positive limit the value is at most 100 |
| Usage.ViewAllPlansIffUpgradable | components/usage-limit-modal.tsx:118-122 | "View All Plans" shows exactly for the free and pro plans, the ones with an upgrade option |
| Usage.ThresholdsDiffer | components/usage-limit-modal.tsx:84 | at exactly 80 percent (4 of 5) the banner warns while the badge stays outline |

## Left out

- The remote call in `extractTopics` (API key lookup, `fetch`, status check, `response.json()`, `JSON.parse`) is not modelled. It is replaced by the `Reply` input. Every failure path ends in the same `NoReply` fallback.
- A reply record whose truthy title or summary is not a string would throw inside `slice` and fall back. Titles and summaries are modelled as strings, so this path is not modelled.
- A title or summary in a reply is "missing" when it is the empty string. Other falsy JSON values are not distinguished.
- `scrollToPosition`, the DOM, and all JSX rendering are not modelled. The banner and dialog are reduced to what they decide to show.
- `localStorage`, its JSON serialisation and the `typeof window` guard (lib/database.ts:118-135) are not modelled. The three lists are fields of the service object.
- `Date.now()`, `Math.random()`, `new Date().toISOString()` and `toLocaleDateString()` are parameters (ids, timestamps, the date in the default title).
- The password hash passed to `createUser` is accepted and dropped, as the source does.
- Strings are sequences of characters, standing for JavaScript's UTF-16 code units. Lower- and upper-casing cover ASCII letters only, and whitespace for `trim` is a fixed set of characters.
- The `i`-flag regular expression at lib/deepseek-service.ts:98 and the `[.!?]+` split at line 156 are written as scanning functions, not as a regular-expression engine.
- Usage percentages and topic ids are exact reals. Rounding is not modelled.
- Extraction.CleanTopic: positions are whole numbers. A reply's `position_start` or `position_end` that is a fractional number is not represented, and neither is a non-finite one; stored topic positions, message offsets and usage counts are integers too.
- Plan names that are inherited object keys (`PLANS["toString"]`) are not modelled. A plan name is looked up in the table's own keys only.
- The concrete transcript "User: hi\nAI: hello\n" is not stated as a lemma of its own. `ClassifyKinds`, `AiContentAfterPrefix` and `SegmentOffsets` state, for every input, what it instantiates.
- The loading and demo flags of the input form, `handleExampleLoad`, and the text-field setters are not modelled.
- Stripe and billing calls, authentication, and the pages are not part of this model.

## Behaviour worth noting

The model follows the code in each of these cases.

- Message offsets skip blank lines. Line 52 of the viewer filters blank lines out before the running offset is counted. An offset therefore falls short of the line's true start by one per preceding blank line (`Viewer.SegmentDrift`; see Findings).
- Heuristic titles are not bounded by 50 characters, the bound the extraction prompt asks the model for (lib/deepseek-service.ts:42). The three-word fallback can be longer (`Extraction.TitleMayExceedFifty`). Only titles cleaned from a reply are cut to 50.
- The three-word title fallback tests the joined words' character count (`> 3`), not the number of words.
- Assistant lines are not matched longest-prefix-first. The content is taken after the first colon, which for every assistant prefix is the prefix's own colon, so the content is the same (`Viewer.AiContentAfterPrefix`).
- The cleaner keeps every usable candidate. There is no 8-topic cap on that path; only the heuristic list is capped.
- Cleaning is idempotent only on cleaned output (`Extraction.CleanTopicsIdempotent`, `Extraction.CleanedResultIdempotent`). Heuristic topics with titles over 50 characters change when cleaned again (`Extraction.RecleanIdentity`).
- The cleaner does not order spans. A cleaned start can exceed its end, or the conversation length (`Extraction.CleanedSpanUnordered`).

## Findings

| source | as written | input that shows it | evidently intended | confidence | as-written member | corrected member |
|---|---|---|---|---|---|---|
| components/conversation/conversation-viewer.tsx:52 | blank lines are removed before the offset loop, so their length and newline are never added to `currentPosition` | "User: hi\n\nAI: hello": the ai message gets offset 9, but its line starts at 10 | offsets are line starts in the original text, the coordinates of the topic spans that line 151 compares them with | medium, not executed | Viewer.SegmentDrift | Viewer.SegmentInPlaceAt |
