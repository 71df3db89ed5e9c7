# DISC assessment: a verified model of its core

The application is a forced-choice DISC personality assessment.

- A respondent types a name. For each of eight questions (a four-question bank shown twice), they pick the option that describes them **most** and the one that describes them **least**. Each option stands for one of the four types D, I, S and C.
- The page refuses to submit without a name or with unanswered questions. Otherwise it posts the answers.
- The backend counts answers per type, picks the dominant type and its animal, and stores the result in an in-memory table under the next id.
- A match endpoint looks two users up by id and returns a compatibility text for their two types.
- The result page renders analysis texts as bullet lists, colours the card by the dominant type, and draws one bar per score.

The model has five modules, one file each, plus `wrappers.dfy` for `Option` and `Result`:

- `assessment.dfy` (module `Assessment`) covers the assessment page:
  - the question bank and its doubling;
  - the answers object and the `AssessmentForm` class, whose `Select` method performs a most/least click;
  - the submission checks and the request body.
- `scoring.dfy` (module `Scoring`) covers the backend's helper functions:
  - the per-type tally, proved by a loop in `CalculateDiscScore`;
  - the dominant type with its tie-break, and the animal;
  - the compatibility lookup, both as written and corrected (see Findings).
- `user_store.dfy` (module `Api`) covers the two endpoints. The `UserStore` class holds the users table, an append-only sequence whose ids run 1..n. It has `SubmitAssessment` and `MatchUsers`, which answers 404 when an id is missing.
- `result_view.dfy` (module `ResultView`) covers the result page: bullet-list normalisation, the theme colour and the score-bar width.
- `js_string.dfy` (module `JsString`) holds the ECMAScript string behaviour these rely on:
  - the white-space set shared by `String.prototype.trim` and the `\s` escape (sections 12.2 and 12.3 of ECMA-262);
  - blankness as an index-recursive predicate, the count of leading blanks and the end of the text before trailing blanks;
  - `trimStart` and `trim`, with a uniqueness lemma that characterises `trim` by its contract;
  - `split` on a one-character separator, with its inverse `join`.

Modelling choices:

- **The answers object is an ordered list.** The page keeps answers in a JavaScript object keyed by question id. The model holds it as a list of `(questionId, answer)` properties in enumeration order. Question ids are array-index keys, and JavaScript enumerates those in ascending numeric order whatever the insertion order. So the list is kept strictly ascending, and `Object.values`/`Object.entries` read it front to back. The page's spread-and-set `{...answers, [id]: updated}` is `Assessment.Put`.
- **Python's `str.upper()`** is modelled as far as it decides membership in `{D, I, S, C}`. That covers ASCII letters, dotless i (U+0131, upper-cases to I) and long s (U+017F, upper-cases to S). No other code point upper-cases to one of those four letters.
- **Python's `max(scores, key=scores.get)`** returns the first maximal key in the table's insertion order D, I, S, C. So ties go to the earliest of those.
- **The bar width** is computed over exact `real` numbers.

Points where the code's behaviour is easy to misread:

- Completeness is decided by *counting* fully answered properties, not by checking each question. `Assessment.SubmissionAcceptedIffComplete` proves the two agree when every key is one of the presented question ids. `Assessment.SubmitAfterClicks` shows this is always the case for answers built by clicks on the page.
- The request body has one entry per stored property, whether or not it is answered, and the name is sent untrimmed.
- The dominant type's tie-break is D, I, S, C, which comes from the dictionary order.

## Model

| member | source | states |
|---|---|---|
| Assessment.DoubledAt | frontend/app/assessment/page.tsx:51-54 | position k of a sequence written twice holds the element at k modulo its length |
| Assessment.Expand | frontend/app/assessment/page.tsx:51-54 | the bank repeated twice: twice as many questions, entry k has id k + 1 and the text and options of base question k modulo the bank size |
| Assessment.FullQuestionsShape | frontend/app/assessment/page.tsx:8-54 | the presented questions are eight, numbered 1..8 in order; question k + 4 repeats question k; every question offers each of D, I, S, C exactly once |
| Assessment.FullQuestionsNumbered | frontend/app/assessment/page.tsx:8-54 | eight questions, question k has id k + 1, and question k + 4 has the text and options of question k |
| Assessment.BaseOnePerType | frontend/app/assessment/page.tsx:8-48 | each base question lists the types in the order D, I, S, C, so offers each exactly once |
| Assessment.FullQuestionsOnePerType | frontend/app/assessment/page.tsx:8-54 | every presented question offers each of D, I, S, C exactly once |
| Assessment.Lookup | frontend/app/assessment/page.tsx:70 | reading a key of the answers object: missing exactly when no property has the key; otherwise the answer of a property stored under it |
| Assessment.AnswerFor | frontend/app/assessment/page.tsx:70 | the previous answer with its default: an empty answer when no property has the key; when a property has the key, the answer that property holds |
| Assessment.Choose | frontend/app/assessment/page.tsx:70-81 | after a choice the chosen slot holds the value; the other slot is cleared if it held the same value and kept otherwise (a missing answer starts empty); most and least are never the same value |
| Assessment.ChoiceMovesBetweenSlots | frontend/app/assessment/page.tsx:74-81 | choosing a value for the other slot right after moves it: the first slot is cleared and the other holds it |
| Assessment.Put | frontend/app/assessment/page.tsx:83-86 | spreading the object and setting one key: that key reads the new answer, every other key reads as before, and ascending enumeration order is kept |
| Assessment.PutTwice | frontend/app/assessment/page.tsx:83-86 | setting the same key twice equals setting it once to the second value |
| Assessment.Selected | frontend/app/assessment/page.tsx:65-87 | after a click only the clicked question's answer changes, and it becomes the choice applied to its previous answer (empty if none) |
| Assessment.SelectIdempotent | frontend/app/assessment/page.tsx:65-87 | repeating the same click leaves the answers unchanged |
| Assessment.PutKeepsShape | frontend/app/assessment/page.tsx:83-86 | storing an exclusive answer keeps every answer exclusive, and keeps the keys within the question ids when the key stored is one |
| Assessment.SelectionsKeepShape | frontend/app/assessment/page.tsx:65-87 | after any series of clicks, most and least differ in every answer, the order stays ascending, and clicks on questions 1..n add no other keys |
| Assessment.AssessmentForm.constructor | frontend/app/assessment/page.tsx:58-63 | the page starts with an empty name and an empty answers object |
| Assessment.AssessmentForm.SetName | frontend/app/assessment/page.tsx:149 | typing replaces the name, leaves the answers alone and keeps the form's invariant (ascending, exclusive) |
| Assessment.AssessmentForm.Select | frontend/app/assessment/page.tsx:65-87 | the field-by-field update of a copy, stored back, yields exactly the answers of Selected, keeps the invariant (ascending, exclusive) and leaves the name alone |
| Assessment.AnsweredCount | frontend/app/assessment/page.tsx:95-97 | defined as the number of answers whose most and least are both truthy (a present, non-empty string, `Assessment.IsAnswered`); the contract bounds it by the number of stored answers, and CountCoversRange gives it its meaning |
| Assessment.CountCoversRange | frontend/app/assessment/page.tsx:95-101 | for answers keyed within an id range, the count reaches the size of the range exactly when every id in it is fully answered |
| Assessment.Submission | frontend/app/assessment/page.tsx:89-112 | refused for a blank name (trim empty) first, then when fewer answers are complete than there are questions; otherwise the body carries the untrimmed name and one entry per stored answer in enumeration order, each with the most and least held under its id, ids strictly ascending |
| Assessment.LookupAt | frontend/app/assessment/page.tsx:105-110 | in an ascending object the property at position k is the one read under its own key |
| Assessment.LookupEach | frontend/app/assessment/page.tsx:105-110 | in an ascending object every property is the one read under its own key |
| Assessment.SubmissionAcceptedIffComplete | frontend/app/assessment/page.tsx:89-101 | with all keys among the question ids, a submission goes through exactly when the name is not blank and every question has both choices |
| Assessment.SubmitAfterClicks | frontend/app/assessment/page.tsx:186-210 | from a fresh page and any clicks on the presented questions, submission goes through exactly when the name is not blank and all eight questions are fully answered |
| Assessment.AscendingFillsRange | frontend/app/assessment/page.tsx:95-110 | an ascending object with keys in lo..hi and as many properties as ids in the range holds exactly the ids lo..hi in order |
| Assessment.SubmittedPayloadAfterClicks | frontend/app/assessment/page.tsx:89-112 | from a fresh page and any clicks on the presented questions, an accepted submission sends exactly eight entries, for questions 1..8 in order, each with truthy most and least values |
| Scoring.Scores.Add | backend/main.py:55 | adding one to a type's score changes that score by one and no other |
| Scoring.UpperChar | backend/main.py:53 | `str.upper()` on one character: ASCII lower case goes to the same letter in upper case; the result is D exactly for D and d, I for I, i and dotless i, S for S, s and long s, C for C and c |
| Scoring.Upper | backend/main.py:53 | upper-casing keeps the length and maps each character as UpperChar |
| Scoring.AxisOf | backend/main.py:53-54 | a value counts towards a type exactly when its upper case is that type's letter |
| Scoring.AxisOfValues | backend/main.py:53-54 | the values that count for D are exactly "D" and "d"; for I "I", "i" and dotless i; for S "S", "s" and long s; for C "C" and "c" |
| Scoring.TallySum | backend/main.py:51-55 | the four scores add up to the number of counted answers, which is at most the number of answers |
| Scoring.FirstMaxIndex | backend/main.py:58 | Python's max over keys in order returns a maximal key that is strictly above every earlier key |
| Scoring.DominantType | backend/main.py:58 | the dominant type has the highest score, and every type before it in D, I, S, C order scores strictly less |
| Scoring.DominantTypeUnique | backend/main.py:58 | that characterisation determines the dominant type uniquely |
| Scoring.CalculateDiscScore | backend/main.py:46-68 | the loop leaves each type's score equal to its number of counted answers; the returned type is the dominant one with first-in-order tie-break, and the animal is its fixed name |
| Scoring.AnimalNamesDistinct | backend/main.py:61-66 | the animal table gives different types different animals |
| Scoring.NoValidAnswersGivesD | backend/main.py:48-58 | with no counted answer (for one, no answers) all scores are zero and the dominant type is D |
| Scoring.LexLeTotal | backend/main.py:72 | Python's string order is total |
| Scoring.LexLeAntisymmetric | backend/main.py:72 | Python's string order is antisymmetric |
| Scoring.LexLeLetters | backend/main.py:72 | on one-character strings it is the code point order |
| Scoring.PairKey | backend/main.py:72 | the key is the two types joined in one order or the other |
| Scoring.PairKeySymmetric | backend/main.py:72 | the key does not depend on argument order |
| Scoring.PairKeyOfTypes | backend/main.py:72 | the key of two type letters puts C first, then D, I, S in that order |
| Scoring.CompatibilityText | backend/main.py:70-86 | the text as written: the entry stored under the sorted key when that key is present, the normal text otherwise |
| Scoring.CompatibilitySymmetric | backend/main.py:70-86 | the as-written text does not depend on argument order |
| Scoring.CrossKeysUnreachable | backend/main.py:72-85 | for one-letter types the sorted key is never DC, IC or SC |
| Scoring.CompatibilityOfTypes | backend/main.py:72-86 | as written: same-type pairs and the pairs of D, I and S get the entry stored for the pair with its letters in D, I, S order (never the normal text); C with another type gets the normal text |
| Scoring.CrossPairMissesItsEntry | backend/main.py:78-86 | D with C gets the normal text although an entry for D and C exists |
| Scoring.SwappedKey | backend/main.py:72 | the pair joined in one order or the other, and different from the sorted key unless both orders give the same string |
| Scoring.CompatibilityTextIntended | backend/main.py:70-86 | the corrected lookup agrees with the as-written text whenever the sorted key is present |
| Scoring.CompatibilityIntendedSymmetric | backend/main.py:70-86 | the corrected text does not depend on argument order |
| Scoring.CompatibilityIntendedOfTypes | backend/main.py:74-86 | every pair of types finds the entry written for it in one order or the other |
| Api.FindUser | backend/main.py:113-114 | no record when no record has the id; otherwise the first record with that id |
| Api.FindUserSequential | backend/main.py:96-114 | in a table with ids 1..n, id k finds the k-th record and ids outside 1..n find none |
| Api.UserStore.constructor | backend/main.py:18 | the table starts empty |
| Api.UserStore.SubmitAssessment | backend/main.py:90-104 | appends exactly one record whose id is the old length + 1, with the name, the tallied scores, the dominant type and its animal; ids stay 1..n in order |
| Api.UserStore.MatchUsers | backend/main.py:110-133 | 404 "User not found" exactly when either id finds no record; otherwise the name, type and animal of the first record with each id, with the compatibility text of their types as written (`get_compatibility_text`, including its unreachable entries); for ids 1..n, success exactly when both ids are in range |
| Api.MatchTextIntendedUnlessC | backend/main.py:118-133 | a successful match reports the intended compatibility text exactly when the two users are not C paired with another type |
| ResultView.ThemeColor | frontend/components/ResultClient.tsx:42-55 | the neutral theme exactly for anything other than D, I, S and C |
| ResultView.ThemeColorsDistinct | frontend/components/ResultClient.tsx:42-55 | the four types get four different themes |
| ResultView.StripBullet | frontend/components/ResultClient.tsx:87 | a line starting with -, • or * loses that glyph and the white space after it; any other line is unchanged |
| ResultView.StrippedTrim | frontend/components/ResultClient.tsx:87 | removing the glyph and the white space after it, then trimming, is trimming the line without its glyph |
| ResultView.CleanItem | frontend/components/ResultClient.tsx:87 | the item is the line without a leading glyph, trimmed; it neither starts nor ends with white space |
| ResultView.IndentedLineItem | frontend/components/ResultClient.tsx:87 | a line starting with white space has nothing stripped but the trim |
| ResultView.IndentedGlyphKept | frontend/components/ResultClient.tsx:87 | a glyph preceded by white space is kept as the item's first character |
| ResultView.GlyphIsNotWs | frontend/components/ResultClient.tsx:87 | no bullet glyph is white space |
| ResultView.OnlyOneGlyphRemoved | frontend/components/ResultClient.tsx:87 | after a doubled glyph the item starts with the second glyph |
| ResultView.KeepNonBlank | frontend/components/ResultClient.tsx:82 | the kept lines are exactly the lines whose trim is not empty, each as often as before, in their original order |
| ResultView.KeepStep | frontend/components/ResultClient.tsx:82 | one step of the filter keeps the filter's three properties: only non-blank lines, each as often as before, in original order |
| ResultView.Items | frontend/components/ResultClient.tsx:82-87 | one item per kept line, in order, each its cleaned text |
| ResultView.SourceLines | frontend/components/ResultClient.tsx:78-79 | a string is split at newlines, join giving it back and no piece holding a newline; a list is used as it is |
| ResultView.RenderBulletList | frontend/components/ResultClient.tsx:72-87 | nothing is rendered exactly for a missing value or the empty string; otherwise the items of the lines (a string split at newlines, a list as it is) |
| ResultView.RenderTextLines | frontend/components/ResultClient.tsx:79-87 | a text built from newline-free lines renders the items of exactly those lines |
| ResultView.BarWidth | frontend/components/ResultClient.tsx:257 | at most 100, exactly 100 from a score of 30, proportional (score·100/30) up to it, never negative for a non-negative score |
| ResultView.BarWidthMonotone | frontend/components/ResultClient.tsx:257 | a higher score never gives a narrower bar |
| JsString.BlankAt | frontend/components/ResultClient.tsx:87 | each position of a blank range holds white space |
| JsString.BlankSplit | frontend/components/ResultClient.tsx:87 | a range is blank exactly when both its parts are |
| JsString.BlankShift | frontend/components/ResultClient.tsx:87 | blank ranges of a suffix are the blank ranges of the whole string, shifted |
| JsString.BlankPrefix | frontend/components/ResultClient.tsx:87 | blank ranges of a prefix are blank ranges of the whole string |
| JsString.LeadingBlanks | frontend/components/ResultClient.tsx:87 | the count of leading characters that are white space: all of them are, and the next is not (or the string ends) |
| JsString.LeadingBlanksAt | frontend/components/ResultClient.tsx:87 | a blank prefix followed by a non-white-space character or the end is exactly what LeadingBlanks counts |
| JsString.TextEnd | frontend/components/ResultClient.tsx:87 | where the text of a range ends before trailing white space: the rest is blank and the character before is not white space unless the text is empty |
| JsString.TextEndAt | frontend/components/ResultClient.tsx:87 | any position with those two properties is TextEnd |
| JsString.TrimStart | frontend/components/ResultClient.tsx:87 | the string without a blank prefix, not starting with white space, as the white-space run after a bullet glyph is removed |
| JsString.Trim | frontend/app/assessment/page.tsx:90 | the slice between a blank prefix and a blank end; empty exactly for a blank string, and otherwise starting and ending with a character that is not white space |
| JsString.TrimBounds | frontend/app/assessment/page.tsx:90 | a slice between a blank prefix ending before text and a blank end starting after text is empty exactly for a blank string and otherwise has non-white-space ends |
| JsString.TrimUnique | frontend/app/assessment/page.tsx:90 | any slice between a blank prefix and a blank end whose ends are not white space is the trim |
| JsString.TrimIdempotent | frontend/components/ResultClient.tsx:82-87 | trimming twice is trimming once |
| JsString.TrimAfterTrimStart | frontend/components/ResultClient.tsx:87 | trimming after removing leading white space is plain trimming |
| JsString.TrimStartsAt | frontend/components/ResultClient.tsx:87 | the trim starts at the first character that is not white space |
| JsString.Split | frontend/components/ResultClient.tsx:79 | at least one piece, and no piece contains the separator |
| JsString.JoinSplit | frontend/components/ResultClient.tsx:79 | joining the pieces of a split gives back the string |
| JsString.SplitJoin | frontend/components/ResultClient.tsx:79 | splitting a join of separator-free pieces gives back the pieces |

## Left out

- The radar projection drawn by `DiscGraph`: its source (frontend/components/DiscGraph.tsx) is not part of this model, so no projection formula is given.
- HTTP and I/O: the axios calls, routing and toasts of the pages, the network error path after submission, and the FastAPI, CORS and uvicorn setup.
- The `isSubmitting` flag: it only guards asynchronous UI behaviour.
- Concurrent requests to the backend: `submit_assessment` calls are modelled one at a time, so races on the users table are not captured.
- The wire format between the two sides: the page sends `most_value`/`least_value`, while the backend reads one `value` per answer. Each side is modelled on its own terms, and nothing claims they compose.
- JSX rendering: icons, class strings other than the theme, `getElementIcon`, skeletons, layout and fonts. The `get_users` endpoint is also left out; it returns the table unchanged.
- Scoring.Upper: ASCII letters, U+0131 and U+017F are mapped; every other code point is left unchanged. Other case mappings, including those that change a string's length, are not modelled, because they cannot make a value count.
- ResultView.BarWidth: computed over exact reals. Floating-point rounding of `score / 30 * 100` is not modelled.
- Assessment.Put: the answers object is modelled for array-index keys only (question ids are natural numbers). Non-index keys, which JavaScript enumerates in insertion order, cannot occur on the page and are not modelled.

## Findings

| source | as written | input that shows it | evidently intended | confidence | as-written member | corrected member |
|---|---|---|---|---|---|---|
| backend/main.py:72-86 | the pair is sorted before lookup, so the sorted key of C with D, I or S is CD, CI or CS; the table has DC, IC and SC instead, and those three entries are unreachable | `get_compatibility_text("D", "C")` returns the normal text instead of the DC entry | each unordered pair finds the entry written for it, whichever order the table uses | high (not executed) | Scoring.CrossPairMissesItsEntry | Scoring.CompatibilityIntendedOfTypes |
