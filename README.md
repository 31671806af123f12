# Real-estate interview checklist: transcript derivation, in Dafny

This project models the part of the real-estate interview chat that turns a
conversation transcript into a checklist. It covers four pieces:

- **The checklist derivation** (`ChatChecklist`). On every transcript change
  the chat walks the messages once. It collects the results of `addQuestion`
  tool parts as checklist items, deduplicated by id. The most recently
  accepted question, while still unanswered, is paired with the next
  non-blank user reply. The pass then works out which of the
  eight interview categories are complete and whether all of them are.
  `DeriveChecklist` is that pass, written as the source's nested loops. It is
  proved equal to a fold (`Walk`, `Checklist`, `CompletedCategories`), and the
  lemmas state what the fold guarantees.
- **The suggestion selector** (`ChatSuggestions`). It finds the latest
  assistant message and takes the first text part whose first
  `suggestedResponses` code block parses as a JSON array. The regular
  expression is modelled exactly (`FencedBody`) and proved to give the
  leftmost match. `JSON.parse` is a parameter of the model.
- **The start action** (`ChatSession.Chat`). This class holds the
  `showInterview` flag, the transcript and the published projection. Starting
  seeds the fixed greeting only into an empty transcript.
- **The checklist panel's grouping and export text** (`RealEstateChecklist`).
  Items are grouped by category in first-seen order. The Copy and the
  Download handlers build the same export text.

`Categories` holds the eight category names. `ChatMessages` holds the message
shapes. `JsText` models the JavaScript string built-ins the code relies on:
`trim`, `\s`, substring search, number formatting and `join`.

The specification functions the contracts are stated against are these:
- `ChatChecklist.Walk` is the state after the walk over a transcript: items,
  recorded answers and the pending id.
- `ChatChecklist.ScanParts` and `ChatChecklist.AnswerStep` are the walk's
  steps over one assistant message's parts and over one user turn.
- `ChatChecklist.Attach` is the map that gives each item its recorded answer.
- `ChatChecklist.CompletedOf` is the scan over the eight names that keeps the
  completed ones.
- `ChatSuggestions.FencedBody` is the suggestion regular expression, and
  `ChatSuggestions.Suggestions` the quick replies of a transcript.
- `RealEstateChecklist.Grouped` is the panel's grouping by category.
- `RealEstateChecklist.ChecklistText` is the exported text.
- `ChatSession.Started` is the transcript after the start button.

Points where the code's behaviour is easy to misread, as the model follows it:

- A tool result's category is not checked against the eight names. Any
  non-empty string is accepted, and only completion looks at the eight.
- An accepted `addQuestion` part whose id was already seen adds no item.
  It still makes its id the pending one.
- Only one question is pending at a time. A question superseded by a later
  accepted directive before any reply, in the same message or a later one,
  is never answered: the next reply goes to the later question.
- `isComplete` compares the length of the completed list with 8, not sets.
  `IsCompleteIff` proves the two agree for the list the code builds.
- An answer is not always the first reply after its question. If the same id
  becomes pending again (a repeated directive), the next reply overwrites the
  stored answer. `AnswerIsLastReply` states the behaviour as written: the last
  such reply wins.
- The result id is not checked for truthiness when an item is accepted. An
  item with an empty id is listed but can never be answered, because the
  pending check `lastToolQuestionId && …` treats `""` as false.
- The code does not limit the number of suggestions.

## Model

| member | source | states |
|---|---|---|
| `Categories.AllCategoriesDistinct` | components/chat.tsx:128-137 | the completion list names eight categories, none twice |
| `JsText.Trim` | components/chat.tsx:182-184 | the trimmed text is a slice of the input with only whitespace cut from either end; it neither starts nor ends with whitespace, and it is empty exactly when the input is all whitespace |
| `JsText.TrimIdempotent` | components/chat.tsx:182-184 | trimming a trimmed reply changes nothing, so stored answers are already trimmed |
| `JsText.IndexOf` | components/chat.tsx:240 | the result is the first occurrence of the pattern at or after the start position, or there is none |
| `JsText.SkipWhitespace` | components/chat.tsx:240 | `\s*` skips a maximal run of whitespace |
| `JsText.DecimalRoundTrip` | components/real-estate-checklist.tsx:47 | the decimal text of an item number reads back as that number |
| `JsText.JoinAppend` | components/real-estate-checklist.tsx:49-51 | joining one more element adds the separator and then the element |
| `RealEstateChecklist.DisplayNamesCoverCategories` | components/real-estate-checklist.tsx:19-28 | the display table has exactly the eight categories as keys and renames each one; an unknown key shows as itself |
| `RealEstateChecklist.GroupByCategory` | components/real-estate-checklist.tsx:31-36 | the reduce that pushes each item into its category's list yields one group per first-seen category, holding that category's items |
| `RealEstateChecklist.FirstSeenMembers` | components/real-estate-checklist.tsx:32-36 | a category gets a group exactly when some item carries it |
| `RealEstateChecklist.FirstSeenDistinct` | components/real-estate-checklist.tsx:32-36 | no category gets two groups |
| `RealEstateChecklist.FirstSeenPrefix` | components/real-estate-checklist.tsx:32-36 | groups appear in first-seen order: the groups of a prefix of the items come first, in the same order |
| `RealEstateChecklist.ItemsInCategory` | components/real-estate-checklist.tsx:32-36 | a group holds only items of its own category, and an unseen category has no items |
| `RealEstateChecklist.ItemsInPrefix` | components/real-estate-checklist.tsx:32-36 | items keep their input order inside a group |
| `RealEstateChecklist.ItemsInContains` | components/real-estate-checklist.tsx:32-36 | every item is in the list of its own category |
| `RealEstateChecklist.ItemInOwnGroup` | components/real-estate-checklist.tsx:32-36 | every item lands in the group of its own category and in no other, and categories are distinct across groups |
| `RealEstateChecklist.GroupsArePermutation` | components/real-estate-checklist.tsx:32-36 | concatenating the groups gives a permutation of the input, with the same length |
| `RealEstateChecklist.GroupedEmpty` | components/real-estate-checklist.tsx:113-114 | an empty checklist has no groups |
| `RealEstateChecklist.ItemLinesNumbered` | components/real-estate-checklist.tsx:44-49 | the items of a group become one block each, numbered consecutively |
| `RealEstateChecklist.ItemLineNumber` | components/real-estate-checklist.tsx:47 | an item's block opens with its number |
| `RealEstateChecklist.SectionNumbering` | components/real-estate-checklist.tsx:42-49 | the k-th item of every section is numbered k + 1, so numbering restarts at 1 per section |
| `RealEstateChecklist.UserAnswerLine` | components/real-estate-checklist.tsx:47 | a `User Answer:` line ends an item's block exactly when its answer is present and non-empty |
| `RealEstateChecklist.SectionHeading` | components/real-estate-checklist.tsx:43 | a section starts with `## `, the category's display name and a newline |
| `RealEstateChecklist.ExportSections` | components/real-estate-checklist.tsx:40-51 | the export text has one section per group, separated by a blank line; no groups give the empty text |
| `RealEstateChecklist.ChecklistTextEmpty` | components/real-estate-checklist.tsx:56-68 | an empty checklist exports the empty text (copy and download share this one builder) |
| `ChatChecklist.DeriveChecklist` | components/chat.tsx:139-205 | the nested loops, answer attachment and completion scan compute the checklist and completed list of the fold, and `isComplete` holds exactly when all eight categories are completed |
| `ChatChecklist.ScanPartsEffect` | components/chat.tsx:148-175 | in one assistant message only accepted `addQuestion` parts add items, by id; answers are untouched; the pending id becomes the last accepted part's id, duplicates included |
| `ChatChecklist.WalkItems` | components/chat.tsx:145-176 | the items are the accepted results of all assistant messages, added by id in transcript order; user messages and other parts add none |
| `ChatChecklist.DedupeIds` | components/chat.tsx:164-172 | items have pairwise distinct ids, and an id is listed exactly when some accepted result carries it |
| `ChatChecklist.DedupeFirstWins` | components/chat.tsx:164-172 | each item is the first accepted result with its id, fields included; later results with that id change nothing |
| `ChatChecklist.DedupeFirstOrder` | components/chat.tsx:164-172 | an earlier first result's item is listed before a later one's, whether the two come from different messages or from parts of one message |
| `ChatChecklist.ChecklistFromDirectives` | components/chat.tsx:149-172 | the items of a transcript are exactly the first accepted result of each id, with distinct ids, listed in order of first appearance |
| `ChatChecklist.AddNewKeeps` | components/chat.tsx:165-172 | the push guarded by `find` keeps ids distinct, always lists the new id and keeps every old one |
| `ChatChecklist.FoldAppend` | components/chat.tsx:145-188 | walking a transcript in two pieces ends in the same state as walking it at once |
| `ChatChecklist.ChecklistPrefix` | components/chat.tsx:145-172 | the items of a transcript are a prefix of the items of any extension, with the same id, category, question and explanation |
| `ChatChecklist.UserTurnEffect` | components/chat.tsx:177-187 | a non-blank user reply while an id is pending stores its trimmed text under that id and clears the pending id; any other user turn changes nothing |
| `ChatChecklist.WalkInv` | components/chat.tsx:145-188 | stored answers are non-empty, trimmed and keyed by listed ids, and a pending id names a listed item |
| `ChatChecklist.AnswersKept` | components/chat.tsx:184 | answers are never removed: an id answered for a transcript is answered for every extension |
| `ChatChecklist.ReplyRecorded` | components/chat.tsx:178-186 | a reply while an id is pending records an answer for that id |
| `ChatChecklist.AnswerIsLastReply` | components/chat.tsx:178-186 | an id has an answer exactly when some non-blank reply came while it was pending, and the answer is the trimmed text of the last such reply |
| `ChatChecklist.ChecklistAnswer` | components/chat.tsx:190-193 | an item's answer is present exactly when a reply came while its id was pending; it is then non-empty and the last such reply's trimmed text |
| `ChatChecklist.CompletedMembers` | components/chat.tsx:196-201 | a category is completed exactly when it is one of the eight and one of its items has a non-empty answer; unknown strings never are |
| `ChatChecklist.CompletedOrdered` | components/chat.tsx:196-201 | completed categories follow the order of any distinct list of names, with no duplicates |
| `ChatChecklist.CompletedCategoriesOrdered` | components/chat.tsx:195-201 | the published completed list follows the order of the eight names, with no duplicates |
| `ChatChecklist.CompletedLength` | components/chat.tsx:196-204 | the completed list is no longer than the category list, and as long exactly when every category has an answered item |
| `ChatChecklist.IsCompleteIff` | components/chat.tsx:204 | the length comparison is equivalent to every one of the eight categories being completed |
| `ChatChecklist.AnsweredPersists` | components/chat.tsx:190-198 | an answered item stays answered, at the same place and in the same category, in every extension |
| `ChatChecklist.CompletedMonotone` | components/chat.tsx:196-201 | a category complete for a transcript stays complete for every extension |
| `ChatSuggestions.LatestAssistant` | components/chat.tsx:228 | the result is the last assistant message, or there is none |
| `ChatSuggestions.LatestAssistantAt` | components/chat.tsx:228 | an assistant message with no assistant message after it is the one the reversed search finds |
| `ChatSuggestions.RegexMatchAnyWhitespace` | components/chat.tsx:240 | an opener, any run of whitespace and then a fence make a match, so backing off the greedy `\s*` finds no match the model misses |
| `ChatSuggestions.FencedBodyIsLeftmostMatch` | components/chat.tsx:240 | the extracted body is the capture group of the leftmost, then shortest, regex match, and there is none exactly when the regex does not match |
| `ChatSuggestions.FencedBodyShape` | components/chat.tsx:240 | the body starts with a non-blank character and holds no fence |
| `ChatSuggestions.FencedBodyAt` | components/chat.tsx:240 | the body is fixed by where the opener, the whitespace after it and the closing fence lie |
| `ChatSuggestions.FencedBodyOfBlock` | components/chat.tsx:240 | a body embedded after an opener and whitespace and closed by a fence is extracted back |
| `ChatSuggestions.FirstSuggestionsFromFirst` | components/chat.tsx:231-253 | the first part that yields an array decides the suggestions; later parts are not looked at |
| `ChatSuggestions.FirstSuggestionsNone` | components/chat.tsx:231-253 | when no part yields an array the suggestions are empty |
| `ChatSuggestions.SelectSuggestions` | components/chat.tsx:227-254 | the scan with `break` returns the first parsed array of the latest assistant message, else the empty list |
| `ChatSuggestions.SuggestionsFromLatest` | components/chat.tsx:228-230 | only the latest assistant message counts; later non-assistant turns change nothing |
| `ChatSuggestions.NoAssistantNoSuggestions` | components/chat.tsx:228-230 | without an assistant message there are no suggestions |
| `ChatSuggestions.ReplySuggestions` | components/chat.tsx:240-247 | a reply carrying one block offers what its trimmed body parses to when that is an array, and nothing otherwise |
| `ChatSuggestions.SuggestionsFromBlock` | components/chat.tsx:228-254 | a latest reply whose block parses to an array offers exactly that array |
| `ChatSuggestions.NoSuggestionsFromBadBlock` | components/chat.tsx:242-250 | a block that does not parse, or parses to something other than an array, offers nothing and does not fail |
| `ChatSession.StartedShape` | components/chat.tsx:210-225 | starting seeds exactly the greeting into an empty transcript, leaves a non-empty one unchanged, and a second start changes nothing |
| `ChatSession.NoBacktickNoBlock` | components/chat.tsx:240 | a text without a backtick holds no suggestion block |
| `ChatSession.TextReplyNoItems` | components/chat.tsx:147-175 | an assistant message of plain text, anywhere in a transcript, leaves the walk unchanged: no item, no answer, no pending id |
| `ChatSession.TextReplyNoSuggestions` | components/chat.tsx:228-254 | an assistant message of plain text without a backtick, followed only by user or system turns, offers no suggestions whatever precedes it |
| `ChatSession.OpeningProjection` | components/chat.tsx:139-205 | a transcript of one plain-text assistant message without a backtick has an empty checklist, nothing complete and no suggestions |
| `ChatSession.WelcomeProjection` | components/chat.tsx:213-223 | a freshly started interview has an empty checklist, nothing completed and no suggestions |
| `ChatSession.Chat.constructor` | components/chat.tsx:207 | the interview is shown from the start exactly when the chat opens with messages; the projection matches them |
| `ChatSession.Chat.Refresh` | components/chat.tsx:139-205 | the effect republishes the projection derived from the current transcript and changes nothing else |
| `ChatSession.Chat.StartInterview` | components/chat.tsx:210-225 | the interview is shown, the transcript becomes the started one, and the projection is re-derived |
| `ChatSession.Chat.CurrentSuggestions` | components/chat.tsx:227-254 | the suggestions offered are those of the current transcript |

## Left out

- React and library plumbing in the chat component are not modelled: the
  chat hook, votes, history mutation, auto-resume, the query-parameter
  `append`, toasts and `window.history`.
- The effect's re-run on every change is modelled as an explicit call to
  `Chat.Refresh`. The model gives no separate method for appending a message.
- `JSON.parse` is a parameter `string -> Option<Json>`, where `None` stands for
  a throw. Only `Array.isArray` is modelled on its result.
- `ChatSuggestions.SelectSuggestions` types the array's elements as strings.
  The source assigns whatever the parsed array holds.
- A tool result's missing `id` and an `id` of `""` are the same value in the
  model. In JavaScript they differ in two places. The dedupe check at
  components/chat.tsx:165 treats them as different ids, and
  `userAnswers[undefined]` at components/chat.tsx:192 reads the key
  `"undefined"`. Ids come from `generateUUID`, so neither case can arise.
- Message ids, timestamps, attachments and the `createdAt` of the greeting are
  not modelled. A part that is null or not an object is `OtherPart`.
- Message content is always a string and parts always an array. The source's
  `typeof` and `Array.isArray` guards therefore always pass.
- JavaScript record behaviour is not modelled. `Object.entries` lists
  integer-like keys first, and names such as `constructor` come from
  `Object.prototype`. Neither can arise from the tool schema's eight category
  names and UUID ids.
- Clipboard, `Blob`, object URLs and the download anchor are left out. Only
  the text they receive is modelled. Copy and download build it with the same
  expression, which is modelled once (`ChecklistText`).
- The progress percentage is left out. It is floating point and only shown on
  screen.
- JSX rendering, prompt text, the tool schemas and `generateUUID` are not part
  of this model. The same goes for the start screen and the suggestion
  buttons.
