# Tools: rate limiters, string helpers and validators, in Dafny

This project models three parts of a small front-end utility library and proves
properties about them.

- **Rate limiters.** These are `debounce` and `throttle` from
  `struct/utils/tools/tools.js`.
  - Each is a class whose fields are the closure variables (`timeout`, `result`,
    `previous`, `args`).
  - Each method is tied to a pure transition function on a `State` value.
  - Every run of `func` is recorded in an invocation log.
  - The clock is an explicit `now` parameter. A pending `setTimeout` is a
    timer field. The timer's callback is an explicit `Fire`/`Later` method.
  - An event loop, `Run` and `Advance`, feeds a sequence of timed calls and
    runs each due timer before the next call. It is used to state
    properties of whole call sequences: bursts, sparse calls, the throttle's
    rate bound and the documented scenarios.
- **String and sequence helpers.** These are `hideMobileInfo`,
  `hideEmailInfo`, `getByteLen`, `cleanArray`, `unique`, and `hasClass`,
  `addClass`, `removeClass` and `toggleClass` on an element's `className`.
- **Validators.** These come from `struct/utils/validator/utils.js`.
  - Each anchored regular expression is transcribed, operator for operator,
    into a small regular-expression datatype (`Regex.Re`).
  - The datatype has a language semantics, `Regex.Matches`.
  - A lemma proves that the pattern accepts exactly the strings described
    by a plain predicate on lengths and character classes. An anchored
    `test`/`match` succeeds exactly when the whole string is in the
    pattern's language.
  - `checkIp` reuses the model of `split`. `checkIdCard` is a loop method
    proved against its specification. It is also related to the MOD 11-2
    check character of GB 11643-1999.

Modules:

| module | file | models |
|---|---|---|
| `Wrappers` | wrappers.dfy | `Option` |
| `Text` | text.dfy | digits, `Number()` of digit strings, `indexOf`, `split`/`join`, `\s` |
| `Regex` | regex.dfy | regular expressions as values, their language, and generic lemmas |
| `Debounce` | debounce.dfy | `debounce` |
| `Throttle` | throttle.dfy | `throttle` |
| `Masking` | masking.dfy | `hideMobileInfo`, `hideEmailInfo`, `getByteLen` |
| `Arrays` | arrays.dfy | `cleanArray`, `unique` |
| `ClassNames` | classnames.dfy | `hasClass`, `addClass`, `removeClass`, `toggleClass` |
| `Validators` | validators.dfy | `checkNotNull`, `checkPhone`, `checkQQ`, `checkWechat`, `checkTel`, `checkUserName`, `checkCharacter`, `checkIp`, `checkIsPosNumber`, `checkIsNegNumber`, `checkIsNumber` |
| `Dates` | dates.dfy | `checkDate` |
| `IdCard` | idcard.dfy | `checkIdCard` |

Where the code and a natural reading of its comments or names differ, the
model follows the code:

- **Deferred debounce and `result`.** A deferred (non-`immediate`) debounce
  never stores `func`'s result. Every call returns the `result` left by the
  last immediate run, which stays `undefined` in deferred mode
  (`Debounce.DeferredCallDoesNotRun`).
- **`throttled` returns nothing.** Its `result` variable is never assigned.
- **The `previous = 0` sentinel.** Throttle uses `previous = 0` to mean
  "never run".
  - A first call runs at once only because real epoch times exceed `wait`.
  - Example: `throttle(f, 1000)` at T, T+200 and T+1100. It runs `f` at T
    and the trailing timer runs it at T+1000. That sets `previous` to
    T+1000, so the call at T+1100 does not run `f`; it arms a new timer for
    T+2000 (`Throttle.Scenario`).
  - At small times the sentinel matters: at t=0 nothing runs, because
    `remaining` is `wait`.
- **`cancel` with `leading: false`.** `throttled.cancel` sets `previous` to 0.
  With `leading: false` the next call then moves `previous` to `now`, so it
  does not run at once (`Throttle.LeadingOffDefers`).
- **Independent flags.** `leading` and `trailing` are independent. The doc
  comment says only one of them may be set, but the code does not enforce it.
- **The rate bound.** It holds for every run, the first included, under two
  conditions: the clock never goes back and `cancel` is not called
  (`Throttle.RateBound`).
- **Class strings.** The class helpers treat `className` as text, not as a
  set of tokens; see "Findings".

## Model

| member | source | states |
|---|---|---|
| Text.IndexOf | struct/utils/tools/tools.js:211 | `indexOf` of a character yields the first position holding it (none earlier), and -1 exactly when it is absent |
| Text.Split | struct/utils/tools/tools.js:212 | `split` on a character yields at least one part. No part contains the separator. The first part is the text before the first separator. There is one part exactly when the separator is absent |
| Text.JoinSplit | struct/utils/tools/tools.js:485-487 | joining the split of a string with the same separator gives the string back |
| Text.JoinAppend | struct/utils/tools/tools.js:486-487 | pushing a part and joining appends the separator and the part |
| Text.IndexOfSub | struct/utils/tools/tools.js:529 | `indexOf` of a substring yields an occurrence with none earlier, or -1 exactly when there is none |
| Debounce.Debouncer.constructor | struct/utils/tools/tools.js:12-13 | a new debouncer has no timer, no result and no runs |
| Debounce.Debouncer.Call | struct/utils/tools/tools.js:14-34 | the fields after a call are `TriggerStep` of the fields before, and the call returns the stored `result` |
| Debounce.Debouncer.Fire | struct/utils/tools/tools.js:23-31 | the fields after the callback are `FireStep` of the fields before |
| Debounce.Debouncer.Cancel | struct/utils/tools/tools.js:36-39 | the fields after `cancel` are `CancelStep` of the fields before |
| Debounce.TriggerArmsOneTimer | struct/utils/tools/tools.js:18-31 | after any call exactly one timer is pending, due `wait` later, holding this call's arguments |
| Debounce.ImmediateRunsIffIdle | struct/utils/tools/tools.js:20-26 | in immediate mode `func` runs exactly when no timer was pending; the call then returns its result, and otherwise the old one |
| Debounce.DeferredCallDoesNotRun | struct/utils/tools/tools.js:28-33 | in deferred mode a call runs nothing and leaves `result` unchanged |
| Debounce.FireRunsCapturedArgs | struct/utils/tools/tools.js:23-31 | the callback clears the timer. In immediate mode it runs nothing; in deferred mode it runs `func` once with the captured arguments |
| Debounce.CancelThenCall | struct/utils/tools/tools.js:36-39 | `cancel` is idempotent, and after it an immediate debouncer runs on the next call |
| Debounce.CancelledBurstNeverRuns | struct/utils/tools/tools.js:28-39 | a deferred burst cancelled before its timer is due never runs `func`, however late the clock gets, and leaves `result` as it was |
| Debounce.DeferredBurst | struct/utils/tools/tools.js:28-31 | a burst of calls, each within `wait` of the previous, runs nothing. It leaves one timer due `wait` after the last call, with the last call's arguments |
| Debounce.DeferredBurstRunsOnce | struct/utils/tools/tools.js:28-31 | once that timer is due, `func` has run exactly once, with the last call's arguments |
| Debounce.ImmediateBurst | struct/utils/tools/tools.js:20-26 | in immediate mode a burst runs `func` exactly once, at the first call and with its arguments |
| Debounce.DeferredSparse | struct/utils/tools/tools.js:28-31 | calls spaced at least `wait` apart all run, each `wait` after its call and with its arguments |
| Debounce.ImmediateScenario | struct/utils/tools/tools.js:20-26 | `debounce(f, 500, true)` at 0 and 100 runs f at 0 only. A call at 600 runs it again |
| Throttle.Throttler.constructor | struct/utils/tools/tools.js:60-63 | a new throttle has no timer, `previous` 0, no arguments and no runs |
| Throttle.Throttler.Call | struct/utils/tools/tools.js:72-92 | the fields after a call are `TriggerStep` of the fields before |
| Throttle.Throttler.Later | struct/utils/tools/tools.js:65-70 | the fields after the trailing timer are `FireStep` of the fields before |
| Throttle.Throttler.Cancel | struct/utils/tools/tools.js:94-98 | the fields after `cancel` are `CancelStep` of the fields before |
| Throttle.RunsIffWindowOpen | struct/utils/tools/tools.js:74-88 | a call runs `func` at once, with its own arguments, exactly when `wait` has elapsed since `previous` or the clock went back. It then clears the timer and sets `previous` to `now`; otherwise nothing runs |
| Throttle.TrailingTimerArmed | struct/utils/tools/tools.js:89-91 | with no timer pending, one is armed exactly when `trailing` is on and the call did not run. It is due `wait` after `previous` and holds the call's arguments |
| Throttle.LeadingOffDefers | struct/utils/tools/tools.js:74-76 | with `leading: false` and `previous` 0, a call runs nothing and sets `previous` to `now` |
| Throttle.LatestArgsWin | struct/utils/tools/tools.js:65-91 | a call inside the window keeps the pending timer, which then runs `func` with this latest call's arguments |
| Throttle.CancelThenCallRuns | struct/utils/tools/tools.js:94-98 | `cancel` clears the timer. With `leading` on, the next call at an epoch time of at least `wait` runs at once |
| Throttle.TriggerKeepsInv | struct/utils/tools/tools.js:72-92 | a call on a monotone clock keeps the invariant: runs spaced by `wait`, and a pending timer due `wait` after `previous`, in the future |
| Throttle.FireKeepsInv | struct/utils/tools/tools.js:65-70 | the trailing timer keeps the same invariant |
| Throttle.RunKeepsInv | struct/utils/tools/tools.js:60-101 | any sequence of calls on a monotone clock, with due timers run in between, keeps the invariant |
| Throttle.RateBound | struct/utils/tools/tools.js:60-101 | no two runs of `func` are less than `wait` apart, including the trailing run still pending after the last call |
| Throttle.TrailingOffNeverArms | struct/utils/tools/tools.js:89-90 | with `trailing: false` no timer is ever pending |
| Throttle.Scenario | struct/utils/tools/tools.js:72-92 | `throttle(f, 1000)` at T, T+200, T+1100 runs f at T and at T+1000 (second call's arguments), then arms a timer for T+2000 |
| Masking.HideMobileInfo | struct/utils/tools/tools.js:195-203 | the result has the input's length and stars positions 3 to 6 when the input is longer than 7, otherwise keeping every character |
| Masking.HideMobileIdempotent | struct/utils/tools/tools.js:195-203 | masking a masked number changes nothing |
| Masking.MaskLocal | struct/utils/tools/tools.js:214-224 | the local part keeps its length and its first 4 characters (only the first when it has at most 4); the rest are stars |
| Masking.HideEmailInfo | struct/utils/tools/tools.js:210-230 | the loops build exactly `HiddenEmail` of the input |
| Masking.HiddenEmailShape | struct/utils/tools/tools.js:210-230 | with an `@` after position 0, the local part is starred after its kept prefix, the `@` stays, and then the text up to any second `@`. With a single `@` the length is kept |
| Masking.HiddenEmailIdempotent | struct/utils/tools/tools.js:210-230 | masking a masked address changes nothing |
| Masking.GetByteLen | struct/utils/tools/tools.js:315-323 | the loop computes the floor of half a unit per narrow character plus one per wide one, with the source's case-insensitive test |
| Masking.HalvesConcat | struct/utils/tools/tools.js:316-321 | the doubled count is additive over concatenation |
| Masking.HalvesBounds | struct/utils/tools/tools.js:316-321 | the doubled count lies between the length and twice it. It equals twice the length exactly when all characters are wide, and the length exactly when none is |
| Masking.ByteLenBounds | struct/utils/tools/tools.js:315-323 | the intended byte length lies between half the length and the length; it is the length for text outside Latin-1 |
| Masking.ByteLenCaseFoldGap | struct/utils/tools/tools.js:318 | "ŸŸ" measures 1 as written but 2 as intended; "μ" measures 0 as written but 1 as intended |
| Masking.ByteLenAgrees | struct/utils/tools/tools.js:318 | without U+0178, U+039C, U+03BC the source's count is the intended one |
| Arrays.CleanArray | struct/utils/tools/tools.js:389-397 | the loop returns exactly `Truthies` of the input |
| Arrays.TruthiesConcat | struct/utils/tools/tools.js:389-397 | cleaning distributes over concatenation, so order is kept |
| Arrays.TruthiesKeepsTruthy | struct/utils/tools/tools.js:392-393 | every kept item is truthy, and each truthy value is kept as often as it occurs |
| Arrays.TruthiesIdempotent | struct/utils/tools/tools.js:389-397 | cleaning twice is cleaning once |
| Arrays.CleanArrayExample | struct/utils/tools/tools.js:386-387 | `["1", "", "2", undefined, "e"]` becomes `["1", "2", "e"]` |
| Arrays.Unique | struct/utils/tools/tools.js:112-118 | the filter with the dictionary of seen keys returns exactly `FirstOfEachKey` of the input |
| Arrays.FirstOfEachKeyInOrder | struct/utils/tools/tools.js:112-118 | the items of the result stand in the input at increasing positions, each the first position of its key: the result keeps the input order |
| Arrays.FirstOfEachKeySound | struct/utils/tools/tools.js:112-118 | the result has no two items with one key and the same set of keys as the input. Each item is the first input item with its key |
| Arrays.FirstOfEachKeyOfDistinct | struct/utils/tools/tools.js:112-118 | an array with distinct keys is returned unchanged |
| Arrays.UniqueIdempotent | struct/utils/tools/tools.js:112-118 | `unique` twice is `unique` once |
| ClassNames.HasClass | struct/utils/tools/tools.js:496-499 | the search succeeds exactly when the name stands somewhere bounded by white space or the ends |
| ClassNames.HasClassSingle | struct/utils/tools/tools.js:496-499 | in a class string without white space the class is present exactly when it is the whole string |
| ClassNames.AddedClassMeaning | struct/utils/tools/tools.js:481-488 | `addClass` leaves a string that has the class unchanged, or else appends a space and the name. Afterwards the class is present |
| ClassNames.AddClassIdempotent | struct/utils/tools/tools.js:481-488 | adding twice is adding once |
| ClassNames.AddedClassKeepsOthers | struct/utils/tools/tools.js:481-488 | `addClass` keeps every class the element had |
| ClassNames.RemovalAtMeaning | struct/utils/tools/tools.js:512 | the removal pattern matches at the start exactly when the name stands there as a whole class, and elsewhere exactly at a white space followed by the name as a whole class. The match takes the leading white space, the name, and one following white space unless at the end |
| ClassNames.ReplaceAllNoMatch | struct/utils/tools/tools.js:512 | where the pattern matches nowhere the replacement leaves the string unchanged |
| ClassNames.RemovedClassShrinks | struct/utils/tools/tools.js:507-514 | removing a present class leaves fewer non-space characters |
| ClassNames.RemoveClassRepeated | struct/utils/tools/tools.js:512-513 | removing `a` from `"a a"` leaves `" a"`, which still has class `a` |
| ClassNames.RemovedAll | struct/utils/tools/tools.js:507-514 | repeating the removal until the class is gone leaves a string without it, and changes nothing when it was absent |
| ClassNames.RemovedClassKeepsOthers | struct/utils/tools/tools.js:507-514 | `removeClass` as written keeps every other class of the element |
| ClassNames.RemovedAllKeepsOthers | struct/utils/tools/tools.js:507-514 | the repeated removal keeps every other class of the element |
| ClassNames.ToggleClassGlues | struct/utils/tools/tools.js:530-531 | `"btn"` toggled with `"active"` becomes `"btnactive"`, which does not have class `active` |
| ClassNames.ToggleClassCuts | struct/utils/tools/tools.js:529-533 | `"is-on"` toggled with `"on"` becomes `"is-"`; neither has class `on` |
| ClassNames.ToggledClassFlips | struct/utils/tools/tools.js:524-536 | the intended toggle flips whether the class is present, and adds it as one more space-separated class |
| ClassNames.ToggledClassKeepsOthers | struct/utils/tools/tools.js:524-536 | the intended toggle keeps every other class of the element |
| ClassNames.ToggleTwiceLeavesSpace | struct/utils/tools/tools.js:507-514 | toggling a single class `c` on and off again with the intended toggle gives `c + " "` and not `c`: the removal leaves the white space before the class behind |
| ClassNames.Element.AddClass | struct/utils/tools/tools.js:481-488 | `className` after the call is `AddedClass` of the old one |
| ClassNames.Element.RemoveClass | struct/utils/tools/tools.js:507-514 | `className` after the call is `RemovedClass` of the old one |
| ClassNames.Element.ToggleClass | struct/utils/tools/tools.js:524-536 | `className` after the call is `Toggled` of the old one |
| Validators.CheckNotNull | struct/utils/validator/utils.js:8-13 | accepted exactly when the value is present and not the empty string |
| Validators.CheckPhoneAccepts | struct/utils/validator/utils.js:38-46 | accepted exactly when there are 11 characters: `1`, then one of 3, 4, 5, 7, 8 or the bar character, then 9 digits |
| Validators.CheckQQAccepts | struct/utils/validator/utils.js:55-62 | accepted exactly when 5 to 11 digits, the first not `0` |
| Validators.WechatChunks | struct/utils/validator/utils.js:73 | one or more runs of 5 to 19 class characters are exactly the class strings of length at least 5 |
| Validators.CheckWechatAccepts | struct/utils/validator/utils.js:71-78 | accepted exactly when a letter is followed by at least 5 characters of `[-_a-zA-Z0-9]`, with no upper bound |
| Validators.CheckTelAccepts | struct/utils/validator/utils.js:87-93 | accepted exactly for a 7- or 8-digit number, optionally preceded by a 3- or 4-digit area code in parentheses or followed by `-` |
| Validators.CheckUserNameAccepts | struct/utils/validator/utils.js:136-143 | accepted exactly when 4 to 16 characters of `[a-zA-Z0-9_-]` |
| Validators.CheckCharacterAccepts | struct/utils/validator/utils.js:285-291 | accepted exactly when every character is in U+4E00-U+9FA5, the empty string included |
| Validators.FieldsAccepts | struct/utils/validator/utils.js:168 | n digit runs joined by dots are exactly the strings whose split on `.` has n non-empty digit parts |
| Validators.IpPatternAccepts | struct/utils/validator/utils.js:168-169 | the pattern accepts exactly four non-empty digit runs separated by dots |
| Validators.CheckIpAccepts | struct/utils/validator/utils.js:167-180 | accepted exactly when the split on `.` has four parts, each a non-empty digit string of value at most 255 |
| Validators.UnsignedPatternAccepts | struct/utils/validator/utils.js:219 | `\d*\.?\d+` accepts exactly digits, or digits, a point and at least one digit |
| Validators.CheckIsPosNumberAccepts | struct/utils/validator/utils.js:217-222 | accepted exactly for a present string that is an unsigned decimal |
| Validators.CheckIsNegNumberAccepts | struct/utils/validator/utils.js:229-234 | accepted exactly for `-` followed by an unsigned decimal |
| Validators.NumberIsPosOrNeg | struct/utils/validator/utils.js:241-246 | `checkIsNumber` accepts exactly what one of the other two accepts, and no string passes both |
| Validators.NumberChecksRejectEmpty | struct/utils/validator/utils.js:217-246 | all three reject null and `""`; whatever `checkIsNumber` accepts passes `checkNotNull` |
| Dates.CheckDateAccepts | struct/utils/validator/utils.js:204-210 | accepted exactly for `Y-M-D`: Y four digits from 1800, M 1-12 in one or two digits, D from 1 up to the month's length in one or two digits. February has 29 days only in Gregorian leap years |
| Dates.DatePatternFields | struct/utils/validator/utils.js:205 | the eleven alternatives accept exactly three `-`-separated fields matching one alternative's year, month and day patterns |
| Dates.LeapShapeAccepts | struct/utils/validator/utils.js:205 | the eight leap-year alternatives accept exactly the four-digit years from 1800 that are Gregorian leap years |
| Dates.LeapDigitsMeaning | struct/utils/validator/utils.js:205 | the digit classes of those alternatives describe exactly the leap years from 1800 |
| Dates.ValidDateOf | struct/utils/validator/utils.js:205 | for well-formed fields, acceptance is exactly "day at most the month's length" |
| Dates.CheckDateLeapDay | struct/utils/validator/utils.js:205 | February 29 is accepted exactly in leap years |
| Dates.CheckDateFebruaryThirtieth | struct/utils/validator/utils.js:205 | February 30 is never accepted |
| Dates.CheckDateShortMonth | struct/utils/validator/utils.js:205 | the 31st of April, June, September or November is never accepted |
| IdCard.IdPatternAccepts | struct/utils/validator/utils.js:106 | the format is exactly 17 digits and then a digit or `x`/`X` |
| IdCard.ReplaceTrailingX | struct/utils/validator/utils.js:109 | only a final `x`/`X` changes, to `a` |
| IdCard.Base11 | struct/utils/validator/utils.js:119 | `parseInt(c, 11)` of a digit is its value, of `a` or `A` 10, and never more than 10 |
| IdCard.CheckIdCard | struct/utils/validator/utils.js:102-126 | the loop returns exactly `IdCardValid`: format, city code, birthday, and weighted sum ≡ 1 (mod 11) |
| IdCard.StandardWeightsArePowers | struct/utils/validator/utils.js:119 | `2^i mod 11` for i = 17…1 are the standard weights 7 9 10 5 8 4 2 1 6 3 7 9 10 5 8 4 2 |
| IdCard.SumsAgree | struct/utils/validator/utils.js:118-120 | the loop's sum over the first 17 characters equals the standard weighted sum |
| IdCard.ChecksumIsStandard | struct/utils/validator/utils.js:118-124 | sum ≡ 1 (mod 11) exactly when the last character is the MOD 11-2 check character (`X` for 10) |
| IdCard.IdCardValidMeaning | struct/utils/validator/utils.js:102-126 | acceptance is exactly format, city code, birthday, and the standard check character |

## Left out

- Debounce:
  - `this` binding is not modelled;
  - re-entrant calls from inside `func` are not modelled;
  - no negative, fractional or non-numeric `wait` is modelled;
  - the stale timer id left in `timeout` after a deferred timer fires is not modelled. It is unobservable, so the model keeps only the live timer.
- Throttle:
  - `this` binding, `context`, and `options` values other than a literal `false` are not modelled;
  - no `NaN` arithmetic from a missing `wait` is modelled;
  - the call log is the only trace of `func`; its return value is discarded, as in the source.
- Throttle.Scenario, Throttle.RateBound and Throttle.CancelThenCallRuns hold for positive epoch times on a monotone clock. Cancel calls and clock jumps are not covered by the rate bound.
- The event loop runs a due timer before a call made at the same time, which is one of the orders a JavaScript runtime may choose.
- Debounce and Throttle: in `Advance` and `Run` a due timer fires exactly at its due time. A JavaScript timer may fire late, after calls made in the meantime. That lateness is not modelled.
- Strings are sequences of Unicode scalar values, while the source's strings are sequences of UTF-16 code units. For text in the Basic Multilingual Plane the two agree.
- Masking.GetByteLen counts a character above U+FFFF, such as U+1F600, as one wide character, giving 1. The source sees two code units and gives 2. The other helpers likewise see such a character as one position where the source sees two.
- `hideEmailInfo`'s `String(email)` conversion of non-strings is not modelled; the input is a string.
- `unique`'s key `typeof item + JSON.stringify(item)` is a parameter `key`. The peculiarities of `JSON.stringify` are not modelled, such as `NaN` and `Infinity` sharing a key.
- `cleanArray` works on a datatype of JavaScript values in which objects are compared by identity.
- Class helpers:
  - class names are plain text; the source builds regular expressions from them unescaped;
  - `toggleClass`'s `!element` test for a missing element is not modelled;
  - `removeClass` as written is modelled with the ECMAScript global-replace rule, including the empty-match case for an empty name.
- Validators:
  - `checkNotNull`'s loose `==` against non-string values is not modelled: inputs are optional strings;
  - JavaScript coercion of non-string arguments by `test`/`match` is not modelled.
- IdCard.CheckIdCard: the birthday check through `new Date` is a parameter `birthdayRoundTrips(year, month, day)`.
- Other tools.js helpers:
  - `accDiv`, `accMul`, `accAdd`, `Subtr`: floating point and `Number()` parsing;
  - `parseTime`, `formatTime`: `Date`, time zones and the clock;
  - `scrollTo`: DOM and timers;
  - `param`, `param2Obj`, `getQueryObject`: URI coding, `JSON.parse`, `window.location`;
  - `objectMerge`, `deepClone`, `isOwnEmpty`: dynamic object graphs.
- Other validators:
  - `checkNum`, `checkMoney`: `isNaN` numeric coercion;
  - `checkUrl`, `checkEmail`: unanchored backtracking search.
- ClassNames.RemovedAll and ClassNames.ToggledClass require a non-empty class name without white space. The class methods model the source as written.
- Masking.GetByteLen models the source as written. The corrected count is `Masking.ByteLen`.

## Findings

| source | as written | input that shows it | evidently intended | confidence | as-written member | corrected member |
|---|---|---|---|---|---|---|
| struct/utils/tools/tools.js:318 | The `i` flag on `/[^\x00-\xff]/ig` makes case variants of Latin-1 letters fail the class. Under ECMAScript ignore-case matching those are U+0178 (upper case of ÿ), U+039C and U+03BC (case variants of µ), so each counts as half a unit | `getByteLen("ŸŸ")` is 1, `getByteLen("μ")` is 0 | every character above U+00FF counts one unit: 2 and 1 | medium, not executed | Masking.ByteLenCaseFoldGap | Masking.ByteLenBounds |
| struct/utils/tools/tools.js:512-513 | the global replacement consumes the white space after a match, so an adjacent repeat of the class is not matched | `removeClass` of `a` on `"a a"` leaves `" a"` | the element no longer has the class | medium, not executed | ClassNames.RemoveClassRepeated | ClassNames.RemovedAll |
| struct/utils/tools/tools.js:530-531 | an absent class is appended with `'' + className`, with no separating space | `toggleClass` of `active` on `"btn"` gives `"btnactive"` | `"btn active"`: the class is added | high, not executed | ClassNames.ToggleClassGlues | ClassNames.ToggledClassFlips |
| struct/utils/tools/tools.js:529-533 | presence is tested with a substring `indexOf`, and the first substring occurrence is cut out | `toggleClass` of `on` on `"is-on"` gives `"is-"` | the class is added, since `is-on` is a different class | high, not executed | ClassNames.ToggleClassCuts | ClassNames.ToggledClassFlips |

The corrected members are `Masking.ByteLen` with its bounds, and
`ClassNames.RemovedAll`/`ClassNames.ToggledClass`. The first repeats the
source's removal until the class is gone. The second removes a present class
that way and otherwise adds it with a space. The intended property of each is
proved: the byte-length bounds, the class being absent afterwards, and the
toggle flipping presence.
