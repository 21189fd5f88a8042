# Gamified quiz: verified model of the quiz logic

This project models the sequential logic of a small React quiz application. The application
stores questions and per-user progress in a hosted data store. Players answer questions in
numbered sections, earn experience points (XP) and level up. Sections unlock as earlier ones
are completed.

Five parts of the application are modelled, one Dafny module per source file:

- **The masked answer input** (`MaskedAnswer`, `question_component.dfy`).
  - The correct answer is split into word slots.
  - The typed letters are laid into a dash-padded display and a space-joined full answer.
  - The caret position is computed.
  - The full answer is compared with the correct answer after trimming and lower-casing.
  - `buildFull`, `buildDisplay` and `getCursorPosition` are methods with loop invariants. Each is proved equal to a specification function, and the properties are lemmas about those functions.
  - The component's state (`userAnswer`, `isIncorrect`) is the class `QuestionInput`.
  - A consequence of the change handler (src/components/QuestionComponent.tsx:105) is proved: a correct answer containing a dash can never be accepted (`HyphenatedAnswerUnreachable`), because every dash is removed from what is typed.
- **The progress hook** (`QuizProgress`, `quiz_progress.dfy`).
  - It covers answer normalisation, grouping question ids by section, the defaults applied to loaded records, and the record transition on a correct answer.
  - The hook's state is the class `QuizStore`. Its `HandleAnswer` publishes the optimistic record, then rolls back to the snapshot when the persist call fails.
  - A ghost history `published` records every value handed to `setProgress`.
- **The earlier progress hook** (`LegacyQuizData`, `legacy_quiz_data.dfy`).
  - It covers the seeding decision, the load defaults, and the non-idempotent `handleAnswer` with its fallback when the update returns no data.
  - Its state is the class `LegacyStore`.
- **Section completion and unlocking.**
  - The earlier page (`SectionLocks`, `section_locks.dfy`) locks a section when the section just before it is incomplete.
  - The current page (`PrefixLocks`, `prefix_locks.dfy`) locks a section when any earlier section is incomplete. That module also chooses the display name.
- **Levels and the accordion gate.**
  - The header's level and XP read-out (`HeaderLevel`).
  - The level-up banner's level and message choice (`LevelUpBanner`).
  - The two collapsible-section components (`Accordion`, `LegacyAccordion`). Each has one `isOpen` field that a click flips only while the section is unlocked.

Shared pieces:

- `Wrappers` has `Option` and `Result`.
- `QuizTypes` has the question and answer records.
- `Text` has these string operations:
  - JavaScript's `trim` and `toLowerCase` over ASCII;
  - `split(/\s+/)` on a trimmed string;
  - joining with single spaces;
  - `substring` clamping;
  - decimal rendering of integers.

Data-store calls are replaced by parameters:

- the records a list or create call returned;
- whether an update threw;
- what an update returned.

## Model

| member | source | states |
|---|---|---|
| MaskedAnswer.FirstCorrect | src/components/QuestionComponent.tsx:24 | The index found is the first answer flagged correct; there is none exactly when no answer is flagged. |
| MaskedAnswer.CorrectAnswer | src/components/QuestionComponent.tsx:23-26 | The correct answer has no leading or trailing whitespace. |
| MaskedAnswer.CorrectAnswerIsFirstFlagged | src/components/QuestionComponent.tsx:23-26 | The correct answer is the trimmed content of the first answer flagged correct. |
| MaskedAnswer.CorrectAnswerWhenNoneFlagged | src/components/QuestionComponent.tsx:23-26 | With no answer flagged, the correct answer is the empty string. |
| MaskedAnswer.SlotLengthsShape | src/components/QuestionComponent.tsx:28-29 | An empty correct answer gives the single slot length 0; otherwise every slot length is positive. |
| Text.SplitTrimmedWords | src/components/QuestionComponent.tsx:28 | Splitting a non-empty trimmed string on whitespace runs gives non-empty tokens without whitespace. |
| Text.SplitJoin | src/components/QuestionComponent.tsx:28 | Splitting words joined by single spaces gives the words back. |
| Text.SplitStep | src/components/QuestionComponent.tsx:28 | Splitting a space-free word, then one space, then text that starts with a letter gives that word followed by the split of the rest. |
| Text.TrimLowerIdempotent | src/components/QuestionComponent.tsx:90 | Trimming then lower-casing a normalised string changes nothing. |
| MaskedAnswer.Chunks | src/components/QuestionComponent.tsx:48-51 | There is one chunk per slot, and chunk i is the clamped substring of the typed text at the slot's offset. |
| MaskedAnswer.BuildFull | src/components/QuestionComponent.tsx:45-55 | The loop yields the slot chunks joined by exactly one space. |
| MaskedAnswer.FullOfConcat | src/components/QuestionComponent.tsx:28-29 | Round trip: typing the concatenated words of an answer yields exactly those words as chunks, and the words joined by single spaces as the full string. |
| MaskedAnswer.FullIgnoresExtra | src/components/QuestionComponent.tsx:45-55 | Letters beyond the total slot length do not affect the full string. |
| MaskedAnswer.BuildDisplay | src/components/QuestionComponent.tsx:32-43 | The loop yields the display slots, as written, joined by one space. |
| MaskedAnswer.DisplaySlotShape | src/components/QuestionComponent.tsx:36-38 | A display slot is its typed letters followed only by dashes. Its length is the slot length plus the gap between the typed text's end and the slot's start. |
| MaskedAnswer.DisplayOverpads | src/components/QuestionComponent.tsx:38 | With slots [3, 4] and nothing typed, the display is "--- -------", 11 characters where 8 are meant. |
| MaskedAnswer.IntendedDisplayShape | src/components/QuestionComponent.tsx:32-43 | Corrected display: each slot has exactly its length, so the total is the letters plus one separator between slots. |
| MaskedAnswer.DisplayAgreesUpToTyped | src/components/QuestionComponent.tsx:38 | The display as written and the corrected display agree on every slot that starts within the typed text. |
| MaskedAnswer.StripMask | src/components/QuestionComponent.tsx:105 | The stored text contains no dash and no space and is no longer than the input value. |
| MaskedAnswer.StripAppend | src/components/QuestionComponent.tsx:105 | Removing dashes and spaces distributes over concatenation. |
| MaskedAnswer.StripDisplay | src/components/QuestionComponent.tsx:32-43 | Round trip: removing dashes and spaces from the display gives back the typed letters, up to the total slot length. |
| MaskedAnswer.GetCursorPosition | src/components/QuestionComponent.tsx:57-71 | The loop yields the caret function of the slot lengths and the number of letters. |
| MaskedAnswer.CaretAtStart | src/components/QuestionComponent.tsx:57-71 | With no letters the caret is at 0. |
| MaskedAnswer.CaretMonotone | src/components/QuestionComponent.tsx:57-71 | More letters never move the caret left. |
| MaskedAnswer.CaretBound | src/components/QuestionComponent.tsx:57-71 | The caret never passes the total letters plus one separator between slots. |
| MaskedAnswer.CaretInSlot | src/components/QuestionComponent.tsx:63-66 | With positive slot lengths, a letter count that ends in slot j puts the caret after those letters and j separators. No separator is counted after an exactly filled slot. |
| MaskedAnswer.TypingTheAnswerIsAccepted | src/components/QuestionComponent.tsx:85-97 | When the correct answer's words are separated by single spaces, typing its letters submits it as correct, with xp equal to the question's value or 10. Other spacing is never accepted (`IrregularSpacingRejected`, under Findings). |
| MaskedAnswer.NoCorrectAnswerIgnoresAll | src/components/QuestionComponent.tsx:86-87 | With no flagged answer there is one empty slot, so every submission is ignored. |
| MaskedAnswer.FullUnmasked | src/components/QuestionComponent.tsx:45-55 | A full string built from stored text contains no dash. |
| MaskedAnswer.TrimLowerPlaceholder | src/components/QuestionComponent.tsx:90 | Trimming and lower-casing neither adds nor removes a dash. |
| MaskedAnswer.HyphenatedAnswerUnreachable | src/components/QuestionComponent.tsx:89-90 | A correct answer containing a dash can never be accepted, since the stored text has its dashes removed. |
| MaskedAnswer.JudgeAccepts | src/components/QuestionComponent.tsx:86-97 | A submission is accepted exactly when the full string is non-empty and normalises to the normalised correct answer. |
| MaskedAnswer.FullLength | src/components/QuestionComponent.tsx:45-55 | The full string is never longer than the slot lengths plus one separator between neighbouring slots. |
| MaskedAnswer.IrregularSpacingRejected | src/components/QuestionComponent.tsx:45-90 | When the correct answer is longer than its words joined by single spaces, no typed text is ever accepted. |
| MaskedAnswer.SpacedAnswerDiffers | src/components/QuestionComponent.tsx:89-90 | Such an answer never normalises like any string the slots assemble. |
| MaskedAnswer.DoubleSpacedAnswerRejected | src/components/QuestionComponent.tsx:86-90 | A correct answer of "a  b" (two spaces) is rejected for every typed text. |
| MaskedAnswer.DoubleSpaceSplit | src/components/QuestionComponent.tsx:28 | "a  b" splits into the two words "a" and "b". |
| MaskedAnswer.JudgeSingleSpaced | src/components/QuestionComponent.tsx:86-97 | Corrected comparison, against the words joined by single spaces. An acceptance reports the question id, correct, and `xpValue ?? 10`. |
| MaskedAnswer.TypingAnyAnswerIsAccepted | src/components/QuestionComponent.tsx:28-97 | Under the corrected comparison, typing the letters of any non-empty correct answer is accepted, however its words are spaced. |
| MaskedAnswer.JudgeSingleSpacedAgrees | src/components/QuestionComponent.tsx:89-90 | For an answer already spaced by single spaces, the corrected comparison is the one written. |
| MaskedAnswer.QuestionInput.constructor | src/components/QuestionComponent.tsx:19-20 | The component starts with an empty answer and not marked incorrect. |
| MaskedAnswer.QuestionInput.HandleChange | src/components/QuestionComponent.tsx:104-107 | The stored answer is the input with dashes and spaces removed, and the incorrect mark is cleared. |
| MaskedAnswer.QuestionInput.HandleSubmit | src/components/QuestionComponent.tsx:85-102 | An empty full string does nothing. A match submits id, true and the xp, and clears the mark. A mismatch sets the mark. |
| MaskedAnswer.QuestionInput.ClearIfIncorrect | src/components/QuestionComponent.tsx:81-83 | When marked incorrect, the stored answer is cleared; otherwise it is kept. |
| MaskedAnswer.QuestionInput.InputValue | src/components/QuestionComponent.tsx:113 | An answered question shows the correct answer. Otherwise the display as written is shown, and removing its dashes and spaces gives back the stored letters up to the total slot length. |
| QuizProgress.NormalizeIdempotent | src/hooks/useQuizData.ts:33-35 | A missing string normalises to ""; normalising twice equals normalising once. |
| QuizProgress.ToQuestion | src/hooks/useQuizData.ts:73-84 | A loaded question keeps id, text and section; a missing xp becomes 10; missing answers become []; each answer's flag is coerced to a boolean. |
| QuizProgress.FromRaw | src/hooks/useQuizData.ts:143-151 | A loaded record keeps its ids. Missing XP, answers, sections and streak become 0, [], [] and 0. |
| QuizProgress.CreatedRecordIsZero | src/hooks/useQuizData.ts:128-135 | A freshly created record loads as all zero and empty. |
| QuizProgress.LoadRecord | src/hooks/useQuizData.ts:124-140 | The first listed record wins, else the created one; with neither, loading fails. |
| QuizProgress.IdsOfMembers | src/hooks/useQuizData.ts:167-175 | An id is grouped under a section exactly when some question of that section has it. |
| QuizProgress.IdsOfAbsent | src/hooks/useQuizData.ts:209 | A section without questions has no ids. |
| QuizProgress.SectionToIds | src/hooks/useQuizData.ts:167-175 | The map's keys are exactly the sections that occur, and each maps to its question ids in list order. |
| QuizProgress.SectionToIdsPartition | src/hooks/useQuizData.ts:167-175 | With distinct ids, every question id is in exactly one group, its own section's. |
| QuizProgress.SectionOf | src/hooks/useQuizData.ts:178-182 | An id has no section exactly when no question has that id. |
| QuizProgress.SectionOfListed | src/hooks/useQuizData.ts:204-205 | With distinct ids, a question's id looks up its own section. |
| QuizProgress.Optimistic | src/hooks/useQuizData.ts:199-229 | The new record:<br>- keeps id, user, streak and last-blaze;<br>- for a new id, appends it and adds the xp (default 10); a re-answer leaves answers and XP unchanged;<br>- always lists the answered id. |
| QuizProgress.OptimisticCompletedSections | src/hooks/useQuizData.ts:204-217 | Completed sections grow by at most one, keeping the old list as a prefix and never duplicating. A section is added only if it is the question's own section, was not listed, and all its ids are now answered. |
| QuizProgress.OptimisticAddsCompletedSection | src/hooks/useQuizData.ts:204-217 | Once every question of the answered question's section is answered, a section not yet listed is appended. |
| QuizProgress.OptimisticKeepsCompletedSections | src/hooks/useQuizData.ts:204-217 | For an unknown question, a section already listed, or a section with an unanswered question, the completed sections stay as they were. |
| QuizProgress.OptimisticIdempotent | src/hooks/useQuizData.ts:199-221 | Answering the same question a second time changes nothing. |
| QuizProgress.OptimisticNoDuplicates | src/hooks/useQuizData.ts:199-202 | The answered list never gains a duplicate. |
| QuizProgress.AnswerStep | src/hooks/useQuizData.ts:194-229 | When the handler goes on past its guards, there was a held record and the result is that record's optimistic update. |
| QuizProgress.AnswerStepGuards | src/hooks/useQuizData.ts:194-197 | The handler stops early exactly when progress or the user id is missing, or the normalised answers differ. |
| QuizProgress.AnswerAllDistinct | src/hooks/useQuizData.ts:199-221 | Answering distinct new questions appends exactly those ids and awards the sum of their xp. |
| QuizProgress.QuizStore.constructor | src/hooks/useQuizData.ts:38-41 | No questions, no progress, loading, no error. |
| QuizProgress.QuizStore.LoadQuestions | src/hooks/useQuizData.ts:54-94 | A listing becomes the held questions with defaults filled in, absent data giving none, and the error is kept. A failed listing keeps the questions and sets the error. |
| QuizProgress.QuizStore.LoadProgress | src/hooks/useQuizData.ts:99-158 | Nothing happens without a user id. Otherwise the loaded record is published, or the error is recorded, and loading ends. |
| QuizProgress.QuizStore.HandleAnswer | src/hooks/useQuizData.ts:194-243 | If the guards fail, nothing changes. Otherwise the optimistic record is published. If persisting fails, the exact snapshot is published again and the error is set. For a new id, the held record afterwards has both the id and its xp, or is the old record. |
| QuizProgress.QuizStore.Persist | src/hooks/useQuizData.ts:230-243 | The given record is published. On a failed persist call, the snapshot taken before it is published again and becomes the progress, and the error is set. |
| LegacyQuizData.FromRaw | src/useQuizData.ts:98-106 | With no record, the result is the default. Otherwise ids and owner are kept, present answers are kept, and missing XP and answers become 0 and []. |
| LegacyQuizData.SectionsToSeed | src/useQuizData.ts:57-62 | Exactly the sections among 1, 2 and 3 that have no question are seeded, in increasing order. |
| LegacyQuizData.SeedIffMissing | src/useQuizData.ts:61 | Seeding happens exactly when one of sections 1, 2 and 3 has no question. |
| LegacyQuizData.Request | src/useQuizData.ts:198-205 | The update appends the id and adds the xp, unconditionally. |
| LegacyQuizData.Merge | src/useQuizData.ts:207-212 | The merged record takes the returned record's fields when present, else the pre-update ones. XP falls back to 0, answers to [], and owner to null. |
| LegacyQuizData.AnswerLegacy | src/useQuizData.ts:194-197 | On a mismatch after trimming and lower-casing both answers, the record is unchanged. |
| LegacyQuizData.ReanswerDuplicates | src/useQuizData.ts:198-199 | Re-answering an answered question lists its id a second time and adds the xp again. |
| LegacyQuizData.NoDataKeepsOldValues | src/useQuizData.ts:207-212 | When the update returns no data, XP and answers keep their pre-update values, not the computed ones. |
| LegacyQuizData.LegacyStore.constructor | src/useQuizData.ts:22-34 | The hook starts with no questions and the default record. |
| LegacyQuizData.LegacyStore.FetchData | src/useQuizData.ts:40-112 | The missing sections are seeded, and the list is fetched again after seeding. The first listed record, else the created one, is loaded. Any failure resets progress to the default. |
| LegacyQuizData.LegacyStore.HandleAnswer | src/useQuizData.ts:188-215 | A mismatch sends nothing and changes nothing. A match sends the unconditional request and then holds the merged record, or the old one if the update threw. |
| SectionLocks.QuestionsOf | src/AuthenticatedContent.tsx:36 | Every question kept has the section's number. |
| SectionLocks.QuestionsOfMembers | src/AuthenticatedContent.tsx:36 | A question is kept exactly when it is listed with that number. |
| SectionLocks.QuestionsOfAppend | src/AuthenticatedContent.tsx:36 | The filter preserves order: filtering a concatenation concatenates the filtered parts. |
| SectionLocks.AllIncludedFilter | src/AuthenticatedContent.tsx:23-26 | Every filtered question is answered exactly when every question carrying the section number is answered. |
| SectionLocks.SectionCompleteIff | src/AuthenticatedContent.tsx:23-26 | A section is complete exactly when every question with its number is answered; the empty-section guard adds nothing. |
| SectionLocks.Completions | src/AuthenticatedContent.tsx:23-26 | There is one completion flag per section, each the section's completeness. |
| SectionLocks.Views | src/AuthenticatedContent.tsx:35-55 | Each section gets its own questions in order. Only the first starts open and it is never locked. A later section is locked exactly when the previous one is incomplete. |
| SectionLocks.OnlyPredecessorMatters | src/AuthenticatedContent.tsx:38 | Answer lists that agree on the previous section's completeness lock section i alike. |
| PrefixLocks.FirstNeverLocked | src/pages/AuthenticatedContent.tsx:107-108 | The first section is never locked. |
| PrefixLocks.LockedIff | src/pages/AuthenticatedContent.tsx:107-116 | Section i is locked exactly when some earlier section has a question whose id is unanswered. |
| PrefixLocks.PrevCompleteIsCompletions | src/pages/AuthenticatedContent.tsx:63-71 | The unguarded check of earlier sections agrees with the guarded completion flags, so empty sections count as complete. |
| PrefixLocks.UnlockedPrefix | src/pages/AuthenticatedContent.tsx:107-116 | Unlocked sections form a prefix: if section i is unlocked, so is every j below i. |
| PrefixLocks.PrefixLocksMore | src/pages/AuthenticatedContent.tsx:107-116 | Any section the earlier page locks, this page locks too. |
| PrefixLocks.PrefixLocksStrictlyMore | src/pages/AuthenticatedContent.tsx:107-116 | With section 1 unanswered and section 2 answered, section 3 is open under the earlier rule and locked under this one. |
| PrefixLocks.Views | src/pages/AuthenticatedContent.tsx:105-131 | Each section gets its own questions in order. Only the first starts open. A section is locked exactly when some earlier completion flag is false. |
| PrefixLocks.RecordedSectionIsComplete | src/hooks/useQuizData.ts:207-217 | A section the progress hook appends to the completed list is complete in the page's sense. |
| PrefixLocks.BeforeAt | src/pages/AuthenticatedContent.tsx:46 | The email part is a prefix without '@', followed by '@' when shorter than the email. |
| PrefixLocks.DisplayName | src/pages/AuthenticatedContent.tsx:43-46 | A non-empty name wins; otherwise a non-empty username; otherwise, for a non-empty email, the text before its first '@'. There is no name exactly when all three are absent or empty. |
| PrefixLocks.ShowSetNameIff | src/pages/AuthenticatedContent.tsx:48 | The set-name form starts shown exactly when name and username are empty or absent and the email is absent, empty or starts with '@'. |
| PrefixLocks.GreetedName | src/pages/AuthenticatedContent.tsx:102 | The greeting uses the display name when non-empty, else "User", so it never greets an empty name. |
| HeaderLevel.ComputeLevel | src/components/Header.tsx:15-18 | The level is at least 1, and is 1 when max ≤ 0 or XP < 0. Otherwise the XP lies in the level's band [(level-1)·max, level·max). |
| HeaderLevel.HeaderLevelOf | src/components/Header.tsx:45-46 | With both properties absent, the level is 1. |
| HeaderLevel.LevelMonotone | src/components/Header.tsx:17 | More XP never lowers the level. |
| HeaderLevel.XPSublabel | src/components/Header.tsx:47 | The sublabel ends with " XP". |
| HeaderLevel.Defaults | src/components/Header.tsx:45-47 | The defaults show level 1 and "0/100 XP". |
| HeaderLevel.SublabelReadsBack | src/components/Header.tsx:47 | Round trip: for non-negative values, the digits before the first '/' read back as the current XP and those before " XP" as the maximum. |
| Text.ParseNatToString | src/components/Header.tsx:47 | Reading back the decimal rendering of a natural number gives the number. |
| LevelUpBanner.BannerLevel | src/components/LevelUpBanner.tsx:16 | For a positive max, the XP lies in the level's band [(level-1)·max, level·max). |
| LevelUpBanner.JsRem | src/components/LevelUpBanner.tsx:25 | The truncating remainder differs from the XP by a multiple of max, and lies in [0, max) for non-negative XP and in (-max, 0] otherwise, which fixes its value. |
| LevelUpBanner.JsRemZero | src/components/LevelUpBanner.tsx:25 | The truncating remainder is zero exactly when the Euclidean one is. |
| LevelUpBanner.BranchOf | src/components/LevelUpBanner.tsx:21-33 | Zero XP starts; a nonzero multiple of max levels up; everything else is in progress. Exactly one branch applies. |
| LevelUpBanner.WithProgress | src/components/LevelUpBanner.tsx:24 | The body ends with the XP progress read-out. |
| LevelUpBanner.LevelBanner | src/components/LevelUpBanner.tsx:18-33 | The banner shows the selected branch, and every body ends with "XP Progress: cur/max". |
| LevelUpBanner.StartingAtLevelOne | src/components/LevelUpBanner.tsx:21-24 | With zero XP the heading says "You're currently Level 1". |
| LevelUpBanner.LeveledUpNamesLevel | src/components/LevelUpBanner.tsx:25-28 | Landing exactly on the start of a level other than 1 congratulates on reaching that level. |
| LevelUpBanner.LevelsAgree | src/components/LevelUpBanner.tsx:16 | For non-negative XP the banner's level equals the header's level. Below zero the banner's level is ≤ 0, while the header shows 1. |
| Accordion.Toggled | src/components/AccordionSection.tsx:23-25 | A click keeps the state while locked and negates it while unlocked. |
| Accordion.ToggleTwice | src/components/AccordionSection.tsx:23-25 | Two clicks under the same lock state restore the open state. |
| Accordion.ClicksUnderLock | src/components/AccordionSection.tsx:23-25 | Any number of clicks while locked changes nothing; while unlocked only their parity matters. |
| Accordion.Render | src/components/AccordionSection.tsx:30-50 | The lock icon shows exactly when locked, whatever the open state; otherwise the arrow points up exactly when open. The body shows exactly when open. |
| Accordion.AccordionSection.constructor | src/components/AccordionSection.tsx:17-21 | isLocked defaults to false, and isOpen starts as initialOpen, which defaults to false. |
| Accordion.AccordionSection.ToggleOpen | src/components/AccordionSection.tsx:23-25 | The open state flips unless locked. |
| Accordion.AccordionSection.Rerender | src/components/AccordionSection.tsx:17 | A new lock property leaves the open state untouched. |
| Accordion.AccordionSection.View | src/components/AccordionSection.tsx:27-52 | The current view shows the lock icon exactly when locked, otherwise an up arrow exactly when open; the description exactly when open; the locked header class exactly when locked. |
| Accordion.LockedSectionStaysClosed | src/components/AccordionSection.tsx:21-25 | A section locked by the current page's rule starts closed and stays closed under any number of clicks. |
| LegacyAccordion.LegacyRender | src/AccordionSection.tsx:25-30 | The cursor is not-allowed exactly when locked. The icon is '▼' exactly when open and '▶' otherwise. The body shows exactly when open. |
| LegacyAccordion.LegacyAccordionSection.constructor | src/AccordionSection.tsx:11-12 | isLocked defaults to false, and isOpen starts as initialOpen, which defaults to true. |
| LegacyAccordion.LegacyAccordionSection.HandleToggle | src/AccordionSection.tsx:14-18 | The open state flips unless locked. |
| LegacyAccordion.LegacyAccordionSection.Rerender | src/AccordionSection.tsx:11 | A new lock property leaves the open state untouched. |
| LegacyAccordion.LegacyAccordionSection.View | src/AccordionSection.tsx:20-32 | The current view has the not-allowed cursor exactly when locked, and the down arrow and the body exactly when open. |
| LegacyAccordion.LockedDefaultStaysOpen | src/AccordionSection.tsx:11-18 | A locked section left at the default opening shows its body under any number of clicks. |
| LegacyAccordion.LockedSectionStaysClosed | src/AccordionSection.tsx:12-18 | A section locked by the earlier page's rule starts closed and stays closed under any number of clicks. |

## Left out

- The data-store client and its calls (`list`, `create`, `update`) are not modelled. Their outcomes are parameters: the records returned, whether a call threw, and what an update returned.
- React lifecycle plumbing is not modelled: effects, cancellation flags, the `mountedRef` guards and the asynchronous interleaving they handle. Each hook operation is one atomic step.
- Caret placement through the layout effect and the focus handler is not modelled. Only the caret position function is.
- Timestamps (`createdAt`, `updatedAt`, wall-clock defaults) are not modelled.
- The seeded question content and the answer-creation loop are not modelled. `FetchData` returns the sections it tries to seed. One try/catch covers all three sections, so a `create` that throws skips the later sections, and the failure is swallowed as in the source. Only the re-listed questions (`relisted`) show what was actually created.
- `trim` and `toLowerCase` are modelled over ASCII. Unicode whitespace and non-ASCII case mapping are not.
- XP values are integers. Fractional or NaN values of JavaScript numbers are not modelled.
- Header and LevelUpBanner both accept fractional and NaN values, which are not modelled. At `maxXP` = 0 the banner's division gives "Level Infinity" for positive XP, "Level -Infinity" for negative XP and "Level NaN" for zero XP.
- The page mounts Header without XP props (src/pages/AuthenticatedContent.tsx:75), so the header always shows level 1 and "0/100 XP", as `HeaderLevel.Defaults` states.
- The banner's only mount (src/pages/AuthenticatedContent.tsx:87) passes neither `currentXP` nor `maxXP`, and the banner declares no defaults for them. The rendered banner therefore divides `undefined` by `undefined`, takes neither the starting nor the level-up branch, and shows "Level NaN" with "XP Progress: undefined/undefined". The model states the banner for integer arguments only.
- The source measures `length`, `substring` and the caret position in UTF-16 code units. The model counts Unicode scalar values, so the two differ for characters outside the Basic Multilingual Plane.
- LevelUpBanner.BannerLevel requires a positive `maxXP`, while the source divides without a guard (src/components/LevelUpBanner.tsx:16); the zero case is described above.
- The page's own read of the hook's progress while it is still null is not modelled. The page model takes the loaded answered list.
- Null entries in the earlier hook's answered list are not modelled.
- The section configuration list (`constants/sections`) is not part of this model and is a parameter. The earlier page's literal section list is a parameter too.
- `calculateXPProgress`, `useHeaderHeight`, `useCampaignQuizData`, the user-profile hook, the client configuration, the schema declaration and the purely presentational components are not part of this model.
- `handleNameSubmit`'s write to the user object is not modelled.

## Findings

| source | as written | input that shows it | evidently intended | confidence | as-written member | corrected member |
|---|---|---|---|---|---|---|
| src/components/QuestionComponent.tsx:38 | The dash padding of a slot is `max(0, l - (typed.length - pos))`. For a slot starting after the typed text, this is `l` plus the gap, so the display grows beyond the slot layout. | Slot lengths [3, 4] with nothing typed give "--- -------" (11 characters) instead of "--- ----" (8). | Each slot shows its typed letters padded with dashes to exactly its length: `max(0, l - max(0, typed.length - pos))`. | not executed | MaskedAnswer.DisplayOverpads | MaskedAnswer.IntendedDisplayShape |
| src/components/QuestionComponent.tsx:89-90 | The full string always joins the slot contents with single spaces, but it is compared with the trimmed correct answer as stored. A correct answer whose words are separated by two spaces, a tab or a newline is longer than anything the slots can assemble. | A correct answer of "a  b" (two spaces): no typed text is accepted. | Compare with the words of the correct answer joined by single spaces, the layout the slots are built from. | not executed | MaskedAnswer.DoubleSpacedAnswerRejected | MaskedAnswer.TypingAnyAnswerIsAccepted |

Both findings are stated beside the component, which keeps the source's behaviour: `QuestionInput.InputValue` shows the display as written and `QuestionInput.HandleSubmit` judges as written. The corrected display (`IntendedDisplay`) and the corrected comparison (`JudgeSingleSpaced`) carry the intended properties, and `DisplayAgreesUpToTyped` and `JudgeSingleSpacedAgrees` show where each agrees with the source.
