# String reverser pages, modelled in Dafny

Two browser pages reverse the text typed into an input box and keep a history of
past reversals, newest first, at most ten rows.

- The **basic page** (`reversestring_basic-MBA/script.js`) reverses when the user clicks the
  button or presses Enter. It trims the input, ignores a blank one, and records the trimmed
  text and its reversal at once. It never suppresses repeats.
- The **advanced page** (`reversestring_advanced-MBA/script.js`) reverses on every keystroke.
  Each keystroke that leaves the input non-empty schedules one history commit and replaces
  the one pending before it. The commit runs once the user has paused. When the trimmed
  input is longer than three code units, the button or Enter cancels the pending commit and
  commits the trimmed text at once, unless it equals the last one committed. The timer path
  likewise refuses a text equal to the last one committed, or one of three trimmed code units
  or fewer.

The model has five modules:

- `Strings` (`strings.dfy`): JavaScript strings as sequences of UTF-16 code units
  (`JsString`). `Reverse` models `split('').reverse().join('')`. `Trim` models
  `String.prototype.trim`, with the complete ECMAScript set of whitespace and line-terminator
  code points.
- `History` (`history.dfy`): the history row, the capacity `MaxHistory = 10`, and `Push`,
  which is what `addToHistory` does to the list (`unshift`, then one `pop` when too long).
- `Controls` (`controls.dfy`): the button threshold (more than 3 code units) and the counter
  warning (80 or more), shared by both pages.
- `BasicPage` (`basic.dfy`) and `AdvancedPage` (`advanced.dfy`): each page has pure step
  functions on its state. Each page also has a class `Page`, whose fields are the script's
  module-level variables. Its methods do what the script's functions do, and each method's
  postcondition equates the new state with the step function applied to the old state.
  The lemmas about the step functions carry the properties.

On the advanced page, the debounce timer is a slot holding at most one pending commit, an
`Option<Commit>`. The timer firing is an explicit event, `TimerFired`. `Run` folds a
sequence of events over the state. `RunPreservesInv` proves an invariant for every event
sequence: the history has at most ten rows, every row is a text and its reversal, and no
two neighbouring rows carry the same text.

Two behaviours of the code follow from the lemmas and are worth knowing:

- The timer path records the input as typed, while the manual path records it trimmed.
  Suppression compares exact strings. So "hello " (with a trailing space) is first recorded
  by the timer, and a click afterwards records "hello" as a second row
  (`PaddedInputCommitsTwice`). No two neighbouring rows carry exactly the same text, but
  texts that differ only in surrounding whitespace can follow each other.
- Emptying the input does not cancel a pending commit, so text cleared in one step
  (select-all and delete, or cut) before the pause ends is still recorded
  (`ClearingKeepsPendingCommit`). Deleting it key by key leaves only a short prefix pending,
  which the length guard refuses.

The manual commit's length test counts the trimmed input, and the manual commit also skips
a text equal to the last one committed. In both pages, the Enter key's test counts the raw
input (`BasicPage.EnterGuardIsUntrimmed`, `AdvancedPage.EnterMatchesButton`).

## Model

| member | source | states |
|---|---|---|
| `Strings.Reverse` | reversestring_advanced-MBA/script.js:28-31 | the result has the input's length and holds its code units mirrored: `r[i] == s[|s|-1-i]` (the empty string gives the empty string) |
| `Strings.ReverseInvolution` | reversestring_basic-MBA/script.js:24-27 | reversing twice gives the input back |
| `Strings.IsWhiteSpace` | reversestring_basic-MBA/script.js:62 | definition: the ECMAScript WhiteSpace and LineTerminator code points that `trim()` removes; its use is stated in `TrimStartDropsWhiteSpace`, `TrimEndDropsWhiteSpace` and `TrimEmptyIffBlank` |
| `Strings.TrimStart` | reversestring_basic-MBA/script.js:62 | the result is a suffix of the input and does not start with whitespace |
| `Strings.TrimStartDropsWhiteSpace` | reversestring_basic-MBA/script.js:62 | everything `TrimStart` drops is whitespace |
| `Strings.TrimEnd` | reversestring_advanced-MBA/script.js:194 | the result is a prefix of the input and does not end with whitespace |
| `Strings.TrimEndDropsWhiteSpace` | reversestring_advanced-MBA/script.js:194 | everything `TrimEnd` drops is whitespace |
| `Strings.Trim` | reversestring_advanced-MBA/script.js:108 | the result is no longer than the input and neither starts nor ends with whitespace |
| `Strings.TrimIsSlice` | reversestring_advanced-MBA/script.js:194 | the trimmed text is one contiguous slice of the input with only whitespace on either side |
| `Strings.TrimEmptyIffBlank` | reversestring_basic-MBA/script.js:62-67 | `trim()` is empty exactly when every code unit of the input is whitespace |
| `Strings.TrimIdempotent` | reversestring_advanced-MBA/script.js:194-197 | trimming a trimmed text changes nothing |
| `History.Push` | reversestring_advanced-MBA/script.js:120-134 | the new row is first, the old rows follow in their old order, and the length grows by one until it reaches 10 |
| `History.PushEvictsOnlyOldest` | reversestring_advanced-MBA/script.js:129-134 | within capacity the list stays within capacity; below 10 nothing is lost; at 10 exactly the last (oldest) row is removed, as a multiset equation too |
| `History.PushAllKeepsNewest` | reversestring_basic-MBA/script.js:92-106 | any run of commits leaves the newest rows first, then the newest earlier rows, at most 10 in all |
| `History.NewestTenRemain` | reversestring_advanced-MBA/script.js:15-17 | from an empty list, after 10 or more commits exactly the last 10 remain, newest first; after 11 the first is gone |
| `Controls.CharCounter` | reversestring_advanced-MBA/script.js:36-47 | the counter shows the raw length against 90 and warns exactly from 80 code units on |
| `Controls.ButtonVisible` | reversestring_advanced-MBA/script.js:53-61 | the button is visible exactly when the raw input has more than 3 code units |
| `BasicPage.Executed` | reversestring_basic-MBA/script.js:61-85 | definition of `executeReverse` on the history; its properties are in `ExecutedCommitsTrimmed`, `ExecutedPreservesInv` and `NoDuplicateSuppression` |
| `BasicPage.KeyPressed` | reversestring_basic-MBA/script.js:176-180 | definition of the Enter listener; its properties are in `EnterMatchesButton`, `EnterGuardIsUntrimmed` and `KeyPressedPreservesInv` |
| `BasicPage.ExecutedCommitsTrimmed` | reversestring_basic-MBA/script.js:61-84 | a blank input leaves the history unchanged; any other input puts exactly one row, the trimmed text and its reversal, at the head |
| `BasicPage.ExecutedPreservesInv` | reversestring_basic-MBA/script.js:61-85 | every row stays a non-empty trimmed text beside its reversal, and the list stays within 10 rows |
| `BasicPage.KeyPressedPreservesInv` | reversestring_basic-MBA/script.js:176-180 | keypresses keep the same invariant |
| `BasicPage.NoDuplicateSuppression` | reversestring_basic-MBA/script.js:92-110 | reversing the same non-blank input twice gives two equal rows at the head, above the earlier rows that still fit |
| `BasicPage.EnterMatchesButton` | reversestring_basic-MBA/script.js:48-56 | Enter reverses exactly when the button is visible; other keys change nothing |
| `BasicPage.EnterGuardIsUntrimmed` | reversestring_basic-MBA/script.js:176-180 | Enter on three spaces and a letter records a one-letter row; Enter on four spaces records nothing |
| `BasicPage.Page.constructor` | reversestring_basic-MBA/script.js:16 | the history starts empty |
| `BasicPage.Page.AddToHistory` | reversestring_basic-MBA/script.js:92-106 | the new history is `Push` of the old one |
| `BasicPage.Page.ExecuteReverse` | reversestring_basic-MBA/script.js:61-85 | the new history is `Executed` of the old one, and the invariant is kept |
| `BasicPage.Page.KeyPress` | reversestring_basic-MBA/script.js:176-180 | the new history is `KeyPressed` of the old one, and the invariant is kept |
| `AdvancedPage.Initial` | reversestring_advanced-MBA/script.js:16-21 | definition of the page-load state; its property is in `ReachableStatesAreValid` |
| `AdvancedPage.Added` | reversestring_advanced-MBA/script.js:108-111 | definition of `addToHistory` (lines 120-134) followed by setting `lastAddedToHistory`; its properties are in `AddedPreservesInv` and `FiredCommitsOnGuard` |
| `AdvancedPage.Scheduled` | reversestring_advanced-MBA/script.js:99-113 | definition of `addToHistoryWithDebounce`: the slot holds the newest arguments; its properties are in `TypingReschedules` and `RealTimeSchedulesUntrimmed` |
| `AdvancedPage.RealTimeReversed` | reversestring_advanced-MBA/script.js:66-91 | definition of `executeRealTimeReverse` on the state; its properties are in `RealTimeSchedulesUntrimmed` and `ClearingKeepsPendingCommit` |
| `AdvancedPage.TimerAccepts` | reversestring_advanced-MBA/script.js:108 | definition of the timer callback's guard; its use is stated in `FiredCommitsOnGuard` and `RepeatIsSuppressed` |
| `AdvancedPage.Fired` | reversestring_advanced-MBA/script.js:106-112 | definition of the timer callback; its properties are in `FiredCommitsOnGuard`, `FiredPreservesInv` and `OnlyLatestInputCommits` |
| `AdvancedPage.ManuallyAdded` | reversestring_advanced-MBA/script.js:193-210 | definition of `manualAddToHistory`; its properties are in `ManualCommitCancelsPending`, `ManualPreservesInv` and `RepeatIsSuppressed` |
| `AdvancedPage.KeyPressed` | reversestring_advanced-MBA/script.js:227-231 | definition of the Enter listener; its properties are in `EnterMatchesButton` |
| `AdvancedPage.Step` | reversestring_advanced-MBA/script.js:216-231 | definition: one listener event or the timer firing; its property is in `StepPreservesInv` |
| `AdvancedPage.Run` | reversestring_advanced-MBA/script.js:216-231 | definition: a sequence of events, first event first; its properties are in `RunPreservesInv`, `RunAppend` and `TypingReschedules` |
| `AdvancedPage.AddedPreservesInv` | reversestring_advanced-MBA/script.js:108-111 | recording a guarded text beside its reversal keeps the history invariant, with `lastAdded` the new text |
| `AdvancedPage.PushKeepsNoRepeats` | reversestring_advanced-MBA/script.js:205-208 | prepending a text that differs from the newest row keeps neighbouring rows distinct |
| `AdvancedPage.FiredPreservesInv` | reversestring_advanced-MBA/script.js:106-112 | a firing timer keeps the invariant |
| `AdvancedPage.StepPreservesInv` | reversestring_advanced-MBA/script.js:216-231 | every event keeps the invariant |
| `AdvancedPage.ManualPreservesInv` | reversestring_advanced-MBA/script.js:193-210 | the manual commit keeps the invariant (its trimmed text is committable) |
| `AdvancedPage.RunPreservesInv` | reversestring_advanced-MBA/script.js:99-134 | every event sequence keeps the invariant: at most 10 rows, and never the same text twice in a row through either path |
| `AdvancedPage.ReachableStatesAreValid` | reversestring_advanced-MBA/script.js:15-21 | every state reachable from page load satisfies the invariant |
| `AdvancedPage.RunAppend` | reversestring_advanced-MBA/script.js:216-231 | running two event sequences one after the other is running their concatenation |
| `AdvancedPage.TypingReschedules` | reversestring_advanced-MBA/script.js:99-106 | a burst of non-empty keystrokes changes only the pending slot, which holds the last input and its reversal |
| `AdvancedPage.OnlyLatestInputCommits` | reversestring_advanced-MBA/script.js:99-112 | after a burst of typing and one firing, only the final input can be recorded: one row if it passes the guard, no change otherwise |
| `AdvancedPage.SupersededInputIsDropped` | reversestring_advanced-MBA/script.js:100-103 | typing `a`, then `b`, then the firing records only `b` |
| `AdvancedPage.ClearingKeepsPendingCommit` | reversestring_advanced-MBA/script.js:69-73 | emptying the input does not cancel the pending commit, which still records the earlier text |
| `AdvancedPage.RealTimeSchedulesUntrimmed` | reversestring_advanced-MBA/script.js:66-90 | an empty input schedules nothing; any other input replaces the pending commit by the untrimmed input and its reversal, and leaves the history alone |
| `AdvancedPage.FiredCommitsOnGuard` | reversestring_advanced-MBA/script.js:106-112 | firing adds one row and updates `lastAdded` exactly when the trimmed text is longer than 3 and differs from the last commit; otherwise only the timer is spent |
| `AdvancedPage.ManualCommitCancelsPending` | reversestring_advanced-MBA/script.js:193-209 | trimmed length up to 3 changes nothing, including the pending commit; beyond that the pending commit is cancelled and the trimmed text is recorded exactly when it differs from the last commit |
| `AdvancedPage.RepeatIsSuppressed` | reversestring_advanced-MBA/script.js:108 | in a valid state, neither the timer carrying the newest row's text nor a manual commit of that text adds a row |
| `AdvancedPage.EnterMatchesButton` | reversestring_advanced-MBA/script.js:227-231 | Enter commits manually exactly when the button is visible; other keys change nothing |
| `AdvancedPage.PaddedInputCommitsTwice` | reversestring_advanced-MBA/script.js:108-110 | an input with surrounding whitespace is recorded as typed by the timer and again trimmed by a click |
| `AdvancedPage.TrimHelloSpace` | reversestring_advanced-MBA/script.js:194 | "hello " trims to "hello", so it is such an input |
| `AdvancedPage.Page.constructor` | reversestring_advanced-MBA/script.js:16-21 | empty history, no pending commit, empty `lastAddedToHistory` |
| `AdvancedPage.Page.AddToHistory` | reversestring_advanced-MBA/script.js:120-134 | the new history is `Push` of the old one; timer and `lastAdded` unchanged |
| `AdvancedPage.Page.AddToHistoryWithDebounce` | reversestring_advanced-MBA/script.js:99-113 | the pending slot is replaced by the new arguments; nothing else changes |
| `AdvancedPage.Page.ExecuteRealTimeReverse` | reversestring_advanced-MBA/script.js:66-91 | the new state is `RealTimeReversed` of the old one, and the invariant is kept |
| `AdvancedPage.Page.FireTimer` | reversestring_advanced-MBA/script.js:106-112 | the new state is `Fired` of the old one, and the invariant is kept |
| `AdvancedPage.Page.ManualAddToHistory` | reversestring_advanced-MBA/script.js:193-210 | the new state is `ManuallyAdded` of the old one, and the invariant is kept |
| `AdvancedPage.Page.OnKeyPress` | reversestring_advanced-MBA/script.js:227-231 | the new state is `KeyPressed` of the old one, and the invariant is kept |

## Left out

- DOM access and rendering are not modelled: `getElementById`, `classList`, `style`,
  `updateHistoryDisplay` with its `innerHTML` template, and the listener wiring. The button
  and counter thresholds are kept as the pure functions in `Controls`.
- The result display is not modelled: the reversed text shown on the page, and the result
  section being shown or hidden. It does not affect the history.
- The fade-in `setTimeout` calls (50 ms and 100 ms) are left out. They only change opacity.
- The 1500 ms quiet period is not modelled as time. The timer firing is an explicit event,
  and any number of events may come before it.
- The timer handle is not modelled as a number. The source leaves a spent or cleared
  handle in `historyTimeout`, and clearing it again does nothing. The model empties the
  slot instead, which has the same effect.
- `copyToClipboard` is left out. It is an asynchronous browser call with an alert on
  failure, and it never touches the history.
- `new Date().toLocaleTimeString()` depends on the clock and the locale. The timestamp is
  a parameter supplied by the caller.
- The counter's text `${length}/90` is modelled as a record with two numbers, not as a
  formatted string.
- `Strings.IsWhiteSpace` lists the space separators of category Zs as current Unicode
  versions define them. Changes in future Unicode versions are not modelled.
- `BasicPage.Page.AddToHistory`, `AdvancedPage.Page.AddToHistory`: these require the
  history to hold at most 10 rows. The script does not check this; every history the page
  can reach satisfies it.
