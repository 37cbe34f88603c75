# Typing exercise engine and lesson-title converter, in Dafny

This project models two parts of the earthworm typing-practice client.

**The exercise engine, `useInput`** (`apps/client/composables/main/question.ts`).
The target sentence is split on single spaces into words. The learner types into one flat
text field. After every edit the engine syncs the flat input into the words: each word gets
its input and its slot `[start, end]` in the flat string. It tracks which word holds the
cursor. On submit it marks every word whose input differs from its text, ignoring case.
It then runs a three-state correction machine, `Input` → `Fix` → `FixInput`, which a
keyboard dispatcher drives. In that machine the learner repairs errors one word at a time
before they may submit again.

**`convertTitleToNumber`** (`apps/client/composables/main/shareImage/convert.ts`). It turns a
lesson title written with Chinese numerals (第十二课, 第一.三课) into `"12"` or `"1 . 3"`.

Files:

- `text.dfy`, module `Text`: JavaScript's `split` on one character, `join`, character
  removal, and ASCII lower-casing. Also the lemmas linking them: split/join round trips, and
  where slot `i` of a joined string lies.
- `lesson_title.dfy`, module `LessonTitle`: the title converter. It comes with a read-back
  round trip, the four shapes of a numeral part, and a proof that every Chinese numeral
  from 1 to 99 reads back as its value.
- `words.dfy`, module `Words`: the `Word` record and `Mode`. It also holds one pure function
  per pass over the word list (sync, activation, marking, the searches for incorrect words)
  and the lemmas about those functions.
- `engine.dfy`, module `Engine`: class `InputEngine` with the exercise state (`words`,
  `mode`, `currentEditWord`, `inputValue`) and one method per operation of `useInput`.
  Each state-changing method is proved to produce the matching `Words` function of its old
  state. The keyboard dispatcher is proved to follow `Decide`, its precedence function.
- `scenarios.dfy`, module `Scenarios`: two worked exercises on the class. One types "x b y"
  for target "a b c", submits into `Fix`, and presses Backspace, which clears word 0 and makes it the word being
  edited. It then presses Backspace again on that empty word, with no incorrect word before
  it. The other submits "A b c", which is correct up to case.

Modelling choices:

- `currentEditWord` is an optional index. Every word's `id` equals its index, so the
  `findIndex` by id at lines 559 and 930 (`IndexOfId`) returns that index.
- The host's cursor getter is a parameter. Every value passed to `setInputCursorPosition`
  is appended to `cursorWrites`. Completion-callback runs are counted in `callbackRuns`.
  `preventDefault` becomes the returned `prevented`.
- Vue's `watchEffect` on the sentence becomes the explicit `SetSource`. `nextTick` is only
  an ordering point: the text is written first, then the cursor moves.
- Re-segmentation follows the code, not a full reset. Only the first k words are replaced,
  where k is the sentence's fragment count. Later words, `mode` and `currentEditWord` stay.
  So the list never shrinks.
- `FixReady()` says that outside `Input` mode some word is incorrect. This is what keeps the
  non-null assertion `getFirstIncorrectWord()!` at line 680 safe. `SubmitAnswer`
  re-establishes it right after marking. `SetInputValue`, the fix operations and the
  dispatcher preserve it. Two operations can break it when run alone outside `SubmitAnswer`:
  `SetSource` and `MarkIncorrectWord`. Marking in FixInput mode after the only incorrect word
  has been retyped correctly clears every flag while the mode stays FixInput. The dispatcher
  and the fix operations require it.

## Model

| member | source | states |
|---|---|---|
| `Engine.InputEngine.constructor` | apps/client/composables/main/question.ts:60-72 | starts in Input with no edited word and an empty flat input; one fresh word per fragment of the sentence, and only word 0 is active, exactly when the cursor is at 0 |
| `Engine.InputEngine.SetSource` | apps/client/composables/main/question.ts:190-199 | word i becomes a fresh word for fragment i (its text, `id == i`, empty input, offsets 0, both flags false); words past the fragment count are untouched, so the list is never shorter and never empty |
| `Engine.InputEngine.SetInputValue` | apps/client/composables/main/question.ts:106-111 | stores the flat input, empties every word's input, syncs the words from it and activates the word at the cursor; needs no more fragments than words (line 278 fails otherwise); keeps every `incorrect` flag, so the Fix-mode invariant survives |
| `Engine.InputEngine.UserInputWordsSyncInput` | apps/client/composables/main/question.ts:234-240 | the flat input becomes all words' inputs joined by single spaces |
| `Engine.InputEngine.InputSyncUserInputWords` | apps/client/composables/main/question.ts:274-285 | the words become `Synced(old words, split of the input)`: the loop's running position is proved to equal the slot start of each fragment |
| `Engine.InputEngine.ResetAllWordUserInput` | apps/client/composables/main/question.ts:319-323 | every word's input is emptied and nothing else changes |
| `Engine.InputEngine.ResetAllWordActive` | apps/client/composables/main/question.ts:357-361 | every word becomes inactive and nothing else changes |
| `Engine.InputEngine.UpdateActiveWord` | apps/client/composables/main/question.ts:395-405 | the early-exit scan yields `Activated(old words, position)`: only the first word covering the position is active |
| `Engine.InputEngine.MarkIncorrectWord` | apps/client/composables/main/question.ts:475-485 | the words become `Marked(old words)`: each is incorrect exactly when its lower-cased input differs from its lower-cased text |
| `Engine.InputEngine.CheckWordCorrect` | apps/client/composables/main/question.ts:439-441 | true exactly when no word is incorrect |
| `Engine.InputEngine.LastWordIsActive` | apps/client/composables/main/question.ts:519-522 | when the last word is active, no earlier word is |
| `Engine.InputEngine.IndexOfId` | apps/client/composables/main/question.ts:559-561 | the id lookup returns the index equal to the id, or -1 when no word carries that id |
| `Engine.InputEngine.FindNextIncorrectWordNew` | apps/client/composables/main/question.ts:556-570 | nothing when no word is being edited, otherwise the first incorrect word after the edited one |
| `Engine.InputEngine.IsLastIncorrectWord` | apps/client/composables/main/question.ts:605-607 | true exactly when no word is edited or no incorrect word follows the edited one |
| `Engine.InputEngine.GetFirstIncorrectWord` | apps/client/composables/main/question.ts:641-643 | the first incorrect word of the list, if any |
| `Engine.InputEngine.ClearNextIncorrectWord` | apps/client/composables/main/question.ts:677-693 | targets the next incorrect word after the edited one, else the first incorrect word; empties only its input; makes it the edited word; rebuilds the flat input; writes the cursor, then activates the word, at its start |
| `Engine.InputEngine.SubmitAnswer` | apps/client/composables/main/question.ts:727-739 | changes nothing in Fix; otherwise clears every active flag and re-marks. If all words are correct: mode Input, callback run once, flat input emptied. Otherwise mode Fix. Afterwards Fix mode implies some incorrect word |
| `Engine.InputEngine.FixFirstIncorrectWord` | apps/client/composables/main/question.ts:773-779 | acts only in Fix, which needs an incorrect word: mode becomes FixInput and the next incorrect word is cleared. In any other mode it changes nothing, even in FixInput with no incorrect word left after re-segmentation |
| `Engine.InputEngine.FixNextIncorrectWord` | apps/client/composables/main/question.ts:813-817 | acts only in FixInput, which it keeps: the next incorrect word is cleared; otherwise nothing changes |
| `Engine.InputEngine.FixIncorrectWord` | apps/client/composables/main/question.ts:851-857 | in Fix or FixInput the next incorrect word is cleared and the mode is FixInput; in Input nothing changes |
| `Engine.InputEngine.IsEmptyOfCurrentEditWord` | apps/client/composables/main/question.ts:891-893 | true exactly when the edited word's input is empty |
| `Engine.InputEngine.FindPreviousIncorrectWord` | apps/client/composables/main/question.ts:927-940 | nothing when no word is being edited, otherwise the nearest incorrect word before the edited one |
| `Engine.InputEngine.ActivePreviousIncorrectWord` | apps/client/composables/main/question.ts:974-985 | a no-op when no earlier incorrect word exists. Otherwise that word becomes the edited word, and the active word and the cursor move to its end. Its text is kept |
| `Engine.InputEngine.CheckSpaceSubmitAnswer` | apps/client/composables/main/question.ts:1019-1027 | always prevented; submits only when space submission is enabled |
| `Engine.InputEngine.HandleKeyboardInput` | apps/client/composables/main/question.ts:1061-1109 | prevented exactly when the decided command is not Pass. Block and Pass change nothing. Each other command has exactly the effect of the operation it names |
| `Engine.Decide` | apps/client/composables/main/question.ts:1067-1108 | arrows are always blocked; nothing passes in Fix; Input never starts fix navigation; each command holds exactly under its precedence condition: submit on the last active word or the last incorrect word, previous word, advance, enter fix, and block exactly for arrows and for ordinary keys in Fix |
| `Engine.DecidePass` | apps/client/composables/main/question.ts:1102-1108 | a key is left to the text field, not prevented, exactly when it is an ordinary key outside Fix, a Space in Input away from the last word, a Backspace in Input, or a Backspace in FixInput on an edited word that still holds text |
| `Words.CreateWord` | apps/client/composables/main/question.ts:145-156 | a fresh word carries its text and id, has nothing typed, is neither active nor flagged, and sits at offset 0; marking it would flag it unless its text is empty |
| `Words.SyncedSlot` | apps/client/composables/main/question.ts:277-284 | after syncing from `s`, synced word i holds fragment i. Its slot `s[start..end]` is that fragment. The first slot starts at 0 and the next slot starts one separator later. The last synced slot ends at `\|s\|` |
| `Words.SyncedTail` | apps/client/composables/main/question.ts:274-285 | words past the fragment count keep their old input and offsets; no field but input, start and end changes |
| `Words.SyncRoundTrip` | apps/client/composables/main/question.ts:234-240 | joining the first k synced inputs gives the flat input back; with one fragment per word, joining all inputs does |
| `Words.FirstCovering` | apps/client/composables/main/question.ts:398-404 | the first word from k on whose slot contains the position (both ends included), or none |
| `Words.Activated` | apps/client/composables/main/question.ts:395-405 | at most one word is active; a word is active exactly when it covers the position and no earlier word does; no other field changes |
| `Words.ActivatedAt` | apps/client/composables/main/question.ts:400-402 | when word i is the first covering word, activation is "all inactive, then i active" |
| `Words.ActivatedNone` | apps/client/composables/main/question.ts:398-404 | when no word covers the position, no word is active |
| `Words.MarkedFlags` | apps/client/composables/main/question.ts:477-483 | after marking, incorrect exactly when the lower-cased input differs from the lower-cased text; no other field changes |
| `Words.MarkedIdempotent` | apps/client/composables/main/question.ts:475-485 | marking twice gives the same words as marking once |
| `Words.MarkedAllCorrect` | apps/client/composables/main/question.ts:439-441 | after marking, all words are correct exactly when every input equals its text up to case |
| `Words.FirstIncorrectFrom` | apps/client/composables/main/question.ts:564-569 | the first incorrect word at index k or later, or none when no such word exists |
| `Words.LastIncorrectBefore` | apps/client/composables/main/question.ts:934-939 | the nearest incorrect word before index k, or none when no such word exists |
| `Words.NextTarget` | apps/client/composables/main/question.ts:677-681 | an incorrect word. It is the nearest one after the edited word when one follows it. Otherwise, or when no word is edited, it is the first incorrect word of the list |
| `Text.Split` | apps/client/composables/main/question.ts:193-194 | `split` on one character: never empty, no fragment holds the separator, and two or more fragments exactly when the separator occurs |
| `Text.JoinSplit` | apps/client/composables/main/question.ts:235-239 | joining the fragments with the separator gives the string back |
| `Text.SplitJoin` | apps/client/composables/main/shareImage/convert.ts:48 | splitting a join of separator-free parts gives the parts back |
| `Text.JoinSlot` | apps/client/composables/main/question.ts:280-283 | slot i of a joined string holds part i; a separator follows every slot but the last; the last ends the string |
| `Text.Remove` | apps/client/composables/main/shareImage/convert.ts:34 | the result holds none of the removed characters and is no longer than the input |
| `Text.RemoveAll` | apps/client/composables/main/shareImage/convert.ts:34 | a string made only of removed characters leaves nothing; with `RemoveAppend` and `RemoveNothing` this pins removal down character by character |
| `Text.RemoveAppend` | apps/client/composables/main/shareImage/convert.ts:34 | removal distributes over concatenation |
| `Text.RemoveNothing` | apps/client/composables/main/shareImage/convert.ts:34 | removing characters that do not occur changes nothing |
| `Text.Lower` | apps/client/composables/main/question.ts:478 | lower-casing keeps the length, leaves no ASCII capital, keeps every character that is not a capital, and turns each capital into its small letter |
| `Text.LowerIdempotent` | apps/client/composables/main/question.ts:478 | lower-casing an already lower-cased string changes nothing |
| `Text.LowerEqual` | apps/client/composables/main/question.ts:478 | two strings lower-case to the same string exactly when they differ at most in the case of ASCII letters, so the comparison at line 478 ignores case and nothing else |
| `Text.Join` | apps/client/composables/main/question.ts:234-240 | `join` of no parts is empty; otherwise its length is the parts' total plus one separator between each pair of neighbours, and it starts with the first part |
| `LessonTitle.DigitValue` | apps/client/composables/main/shareImage/convert.ts:36-46 | a single character reads at most 9; a character with a value is none of 十, "." or 第/课 |
| `LessonTitle.DigitRoundTrip` | apps/client/composables/main/shareImage/convert.ts:36-46 | every character with a value is the digit written for that value, so the nine map entries are distinct |
| `LessonTitle.ConvertTitleToNumber` | apps/client/composables/main/shareImage/convert.ts:33-69 | the output is never empty and holds only decimal digits, spaces and dots |
| `LessonTitle.DecimalsJoinChars` | apps/client/composables/main/shareImage/convert.ts:68 | a " . "-join of decimal strings holds only digits, spaces and dots |
| `LessonTitle.LookupDigit` | apps/client/composables/main/shareImage/convert.ts:61 | a whole-string key yields 1..9 exactly when it is one digit character, else 0 |
| `LessonTitle.PartValue` | apps/client/composables/main/shareImage/convert.ts:50-66 | every part reads as a number between 0 and 99 |
| `LessonTitle.TitleNumbers` | apps/client/composables/main/shareImage/convert.ts:48-66 | one number per "."-separated part of the stripped title, each at most 99 |
| `LessonTitle.Decimal` | apps/client/composables/main/shareImage/convert.ts:65 | `toString` gives a non-empty string of decimal digits |
| `LessonTitle.DecimalRoundTrip` | apps/client/composables/main/shareImage/convert.ts:65 | reading a decimal back gives the number |
| `LessonTitle.RemoveSpacesJoin` | apps/client/composables/main/shareImage/convert.ts:68 | dropping the spaces from a " . "-join of space-free parts leaves their "."-join |
| `LessonTitle.ConvertTitleRoundTrip` | apps/client/composables/main/shareImage/convert.ts:33-68 | reading the output back (spaces dropped, split on ".") gives exactly one number per part of the stripped title, in order |
| `LessonTitle.StripIsIdempotent` | apps/client/composables/main/shareImage/convert.ts:34 | 第 and 课 never influence the result |
| `LessonTitle.SpecialParts` | apps/client/composables/main/shareImage/convert.ts:51-52 | an empty part reads 0 and "十" reads 10 |
| `LessonTitle.LeadingTen` | apps/client/composables/main/shareImage/convert.ts:55-56 | a part starting with 十 reads 10 plus its second character's digit, so 10..19 |
| `LessonTitle.TrailingTen` | apps/client/composables/main/shareImage/convert.ts:57-58 | a part ending, not starting, with 十 reads ten times its first character's digit |
| `LessonTitle.InnerTen` | apps/client/composables/main/shareImage/convert.ts:59-61 | a part with an inner 十 reads tens from the text before the first 十. It reads units from the text between that 十 and the next one, or the end. An unknown string counts 0 |
| `LessonTitle.NoTen` | apps/client/composables/main/shareImage/convert.ts:62-63 | a part without 十 reads 1..9 exactly when it is a single digit character, else 0 |
| `LessonTitle.DigitChar` | apps/client/composables/main/shareImage/convert.ts:36-46 | each of 1..9 has a digit character that the map sends back to it |
| `LessonTitle.Numeral` | apps/client/composables/main/shareImage/convert.ts:36-46 | the written numeral of 1..99 holds neither "." nor 第/课 |
| `LessonTitle.NumeralValue` | apps/client/composables/main/shareImage/convert.ts:50-66 | every Chinese numeral from 一 to 九十九 reads back as its value |
| `LessonTitle.ConvertLessonTitle` | apps/client/composables/main/shareImage/convert.ts:33-68 | the title "第" + numerals joined by "." + "课" converts to their decimals joined by " . " |
| `Scenarios.TypeWithTwoErrors` | apps/client/composables/main/question.ts:106-111 | typing "x b y" for target "a b c" gives each word its fragment and activates the last word |
| `Scenarios.SubmitWithTwoErrors` | apps/client/composables/main/question.ts:1078-1080 | Space on the last word submits: words 0 and 2 are incorrect, the mode is Fix and no callback runs |
| `Scenarios.TypeCorrectUpToCase` | apps/client/composables/main/question.ts:106-111 | typing "A b c" for target "a b c" gives each word its fragment and activates the last word |

## Left out

- Vue reactivity (`reactive`, `ref`, `watchEffect`) is replaced by explicit calls. `SetSource` stands for the effect re-running when the sentence changes.
- `nextTick` and the async functions are not modelled: each operation runs to completion. In the source, `fixIncorrectWord()`, `fixFirstIncorrectWord()` and `activePreviousIncorrectWord()` are not awaited (lines 1098, 1104, 1107). So the cursor write and the active-word update they make after `nextTick` land after `handleKeyboardInput` has returned. The model applies them immediately.
- DOM `KeyboardEvent`: only its `code` is modelled, as `Key`. `preventDefault` is the returned flag.
- The host callbacks are not called. The cursor setter is recorded in `cursorWrites`, the cursor getter is a parameter, and completion callbacks are counted in `callbackRuns`. The model does not tell the caller's own callback apart from `useSpaceSubmitAnswer.callback`.
- `toLocaleLowerCase` is locale-dependent. `Text.Lower` lower-cases ASCII only.
- The `position` field of `Word` is not modelled: it is set to 0 at creation and never read or written again.
- Engine.InputEngine.IsEmptyOfCurrentEditWord: in the source, `currentEditWord` holds a reference to a word object. After re-segmentation it can still point at a replaced word, and `isEmptyOfCurrentEditWord` then reads that stale object. The model reads the current word at the same index instead.
- Engine.InputEngine.HandleKeyboardInput: requires `FixReady()`. After `SetSource` in Fix or FixInput mode, the fresh words are all correct, so no word may be incorrect. The source's `getFirstIncorrectWord()!` (line 680) would then dereference `undefined`. The model excludes that state instead of modelling the exception.
- Engine.InputEngine.SetInputValue: requires no more fragments than words. With more, line 278 dereferences a missing word, and the model excludes that input rather than modelling the exception.
- LessonTitle.LookupDigit: in JavaScript `numMap` is a plain object. So a key such as `constructor` or `toString` finds an inherited `Object.prototype` member instead of `undefined`. The model gives every key outside the nine digits the value 0.
- Strings are sequences of Unicode scalar values, not UTF-16 code units. All characters the converter inspects are in the Basic Multilingual Plane, so its indexing agrees. The engine's offsets differ: `start` and `end` are sums of `input.length` (question.ts:281, 283) in UTF-16 code units, and they are compared with the host's cursor offset in the same units. When the learner types a character outside the Basic Multilingual Plane, such as an emoji, that character counts 2 in the source and 1 in the model. The model's slots, and the word it activates for a given cursor offset, then differ from the source's.
- The rest of the repository is not part of this model: the API services and controllers, the HTTP client, stores, sound and modal helpers, image templates, course links and the course-data scripts. They are I/O and persistence around the core.
