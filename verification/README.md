# JACKPOT lottery client — verified model of its pure rules

The JACKPOT web client is a Next.js/React page for a number-picking lottery
game that talks to a crypto wallet. Almost all of it is view code. This
project lifts out the few pure rules in it, models them in Dafny, and proves
their properties:

- **Number board** (`src/components/NumberSelector.tsx`). A selection of at
  most six distinct numbers from 1..49. Clicking a number toggles it. Clicking
  an unselected number while six are already chosen does nothing, and that
  button is disabled. "Quick pick" and "throw lucky numbers" replace the
  selection with six distinct numbers found by rejection sampling, sorted
  ascending. They are also the only actions that notify the parent through
  `onNumbersSelected`. "Throw lucky numbers" first puts one number from the
  lucky-prime table and one from the zodiac table into the set.
- **Amount fields** (`src/components/BetSection.tsx`). Each keystroke offers
  the field a new text. The field stores it only if it passes
  `/^\d*\.?\d*$/`. Otherwise the old text stays. The add-funds dialog opens,
  closes on cancel, and closes and clears the fund amount on a successful
  confirm.
- **Language menu** (`src/components/LanguageSelector.tsx`). The current
  language is the table entry with the locale's code. Choosing a language
  sends the router to `"/" + newLocale` followed by the path with its first
  `"/" + locale` cut out. The dropdown flag flips on the trigger and closes
  on a choice.
- **Locale fallback** (`src/i18n/request.ts`, `src/i18n/navigation.ts`). A
  missing or unsupported locale becomes `en`. The configuration carries the
  normalised locale, that locale's messages and the `UTC` time zone.
- **Query retry policy** (`src/providers/Web3Provider.tsx`). A 403 response
  is never retried. Any other error is retried while `failureCount < 2`. The
  wait before attempt `n` is `min(1000 * 2^n, 30000)` ms.

`Math.random` is replaced by its results, supplied by the caller. A quick-pick
draw is the whole number `Math.floor(Math.random() * 49)`, in [0, 49). A lucky
table index is `Math.floor(Math.random() * length)`. The sampling loops take
their draws in order. They return `None` when the supplied draws run out
before the set holds six numbers, where the loops of `quickPick` and
`throwLuckyNumbers` would still be drawing. The model proves that a loop finishes exactly when the draws name
enough distinct numbers.

Files, one module each: `optional.dfy` (`Option`), `seq_util.dfy`
(duplicate-freedom, `filter`, numeric sort), `number_selector.dfy`,
`bet_section.dfy`, `routing.dfy` (the locale list of `navigation.ts`),
`request_config.dfy`, `language_selector.dfy`, `retry_policy.dfy`.

## Model

| member | source | states |
|---|---|---|
| SeqUtil.Without | src/components/NumberSelector.tsx:18 | `filter(n => n !== num)` keeps exactly the other values, returns the list unchanged when `num` is absent, and keeps a duplicate-free list duplicate-free |
| SeqUtil.WithoutCutsOut | src/components/NumberSelector.tsx:18 | in a duplicate-free list, filtering out the value at index i gives the list with just that position cut out; the others keep their relative order |
| SeqUtil.WithoutAppend | src/components/NumberSelector.tsx:18 | filtering a list with one value appended is filtering the list, then keeping the appended value only if it is not the one filtered out |
| SeqUtil.SortAscending | src/components/NumberSelector.tsx:29 | `sort((a, b) => a - b)` returns a permutation of its input (same multiset) in ascending numeric order |
| SeqUtil.SortDistinct | src/components/NumberSelector.tsx:29 | sorting distinct numbers gives a strictly ascending list of the same length with the same values |
| NumberSelector.ToggleNumber | src/components/NumberSelector.tsx:16-22 | after a click, a value is selected iff it was already selected and is not the clicked number, or it is the clicked number, it was unselected, and fewer than six were selected |
| NumberSelector.ToggleSelectedCutsOut | src/components/NumberSelector.tsx:17-18 | clicking a selected number removes exactly that number, and the rest keep their order |
| NumberSelector.ToggleUnselectedAppends | src/components/NumberSelector.tsx:19-20 | clicking an unselected number while fewer than six are selected appends it at the end |
| NumberSelector.ToggleNoChangeIffDisabled | src/components/NumberSelector.tsx:74 | a click leaves the selection unchanged exactly when that number's button is disabled (six selected and the number not among them) |
| NumberSelector.ButtonDisabled | src/components/NumberSelector.tsx:74 | a button is disabled when six are selected and its number is not among them; clicking a disabled number changes nothing |
| NumberSelector.TogglePreservesValid | src/components/NumberSelector.tsx:16-22 | clicking a board number keeps the selection duplicate-free, at most six long and within 1..49 |
| NumberSelector.ToggleTwiceRestores | src/components/NumberSelector.tsx:17-20 | with room available, clicking an unselected number twice restores the original list |
| NumberSelector.AddToSet | src/components/NumberSelector.tsx:47-52 | `Set.add` keeps the set duplicate-free and its values become the old ones plus the added number |
| NumberSelector.Fill | src/components/NumberSelector.tsx:24-28 | the sampling loop ends with six distinct numbers: the starting set plus the numbers named by a prefix of the draws taken in order, so the first distinct draws are the ones kept; it ends exactly when the starting set and the drawn numbers together hold at least six distinct values |
| NumberSelector.SortPick | src/components/NumberSelector.tsx:57 | a finished six-number set, sorted, is strictly ascending and has the same values |
| NumberSelector.QuickPick | src/components/NumberSelector.tsx:24-31 | quick pick yields six distinct numbers in 1..49, strictly ascending, which are the numbers named by a prefix of the draws in order; it finishes exactly when the draws name at least six distinct numbers |
| NumberSelector.SeededPick | src/components/NumberSelector.tsx:42-57 | sampling seeded with two distinct board numbers yields a ticket holding both whose numbers come only from the seeds and the draws: the seeds plus the numbers of a prefix of the draws; it finishes exactly when the seeds and draws give six distinct values |
| NumberSelector.ThrowLucky | src/components/NumberSelector.tsx:38-59 | lucky numbers are six distinct numbers in 1..49, strictly ascending, containing the chosen lucky prime and the chosen zodiac number (hence at least one of each table); the remaining numbers are the first distinct ones the draws add |
| NumberSelector.SeedsOnBoard | src/components/NumberSelector.tsx:38-44 | the chosen lucky prime and zodiac number are board numbers and differ, so both seeds stay in the set |
| NumberSelector.LuckyTablesOnBoard | src/components/NumberSelector.tsx:38-39 | the lucky primes lie in 1..49; the zodiac table is exactly the multiples of four in 1..49; the two tables are disjoint |
| NumberSelector.HandleClick | src/components/NumberSelector.tsx:16-31 | a number click sets the selection to the toggled list and never notifies the parent; a quick pick or lucky throw finishes exactly when its sampling does, replaces the selection with that sorted sample and notifies the parent with the same list; every click keeps the selection invariant |
| NumberSelector.RunClicks | src/components/NumberSelector.tsx:13-59 | no contract; the selection after a series of clicks, characterised by RunClicksPreservesValid |
| NumberSelector.RunClicksPreservesValid | src/components/NumberSelector.tsx:13-59 | after any series of clicks from a valid selection (such as the initial empty one), the selection is still valid |
| BetSection.LeadingDigits | src/components/BetSection.tsx:23 | the length of the leading digit run matched by the first `\d*` of the pattern: all digits before it, and a non-digit at it if it is inside the text |
| BetSection.ScanAmount | src/components/BetSection.tsx:23 | the scanner for `^\d*\.?\d*$` accepts only texts made of digits and dots; ScanMatchesRegex characterises it exactly |
| BetSection.ScanAfterDot | src/components/BetSection.tsx:23 | once the `.` is consumed, the scanner accepts exactly all-digit texts (the final `\d*$`) |
| BetSection.ScanSkipsDigits | src/components/BetSection.tsx:23 | a leading run of digits does not change the scanner's verdict (the leading `\d*`) |
| BetSection.ScanSound | src/components/BetSection.tsx:23 | every text the scanner accepts splits as digits, an optional `.`, digits |
| BetSection.ScanComplete | src/components/BetSection.tsx:23 | every text that splits as digits, an optional `.`, digits is accepted by the scanner |
| BetSection.ScanMatchesRegex | src/components/BetSection.tsx:23 | the scanner accepts exactly the language of `^\d*\.?\d*$` |
| BetSection.ScanIffDigitsAndOneDot | src/components/BetSection.tsx:23 | the scanner for `^\d*\.?\d*$` accepts a text iff it consists of ASCII digits with at most one `.` |
| BetSection.Admits | src/components/BetSection.tsx:23 | the filter `value === ''` or `/^\d*\.?\d*$/` admits exactly the texts of ASCII digits with at most one `.`, and agrees with the regular expression alone, so the empty-string test adds nothing |
| BetSection.AdmitsPrefixClosed | src/components/BetSection.tsx:23 | deleting trailing characters from an admitted text yields an admitted text |
| BetSection.AdmitsNonNumericTexts | src/components/BetSection.tsx:23 | `"."`, `"12."`, `".5"` and `""` are admitted, while `"1.2.3"`, `"-1"`, `"1e5"` and `" 1"` are not |
| BetSection.OnChange | src/components/BetSection.tsx:21-33 | a keystroke stores the new text iff it is digits with at most one `.`, and otherwise keeps the old text; an admitted stored text stays admitted |
| BetSection.Handle | src/components/BetSection.tsx:21-49 | a bet keystroke applies the field rule to the bet text only; a fund keystroke applies it to the fund text only, and only while the dialog is open; "add funds" opens the dialog; cancel closes it and keeps the fund text; a successful confirm closes it and clears the fund text; a failed confirm, and fund, cancel or confirm events while the dialog is closed, change nothing; both fields stay admitted |
| BetSection.RunPanel | src/components/BetSection.tsx:17-49 | no contract; the panel after a series of events, characterised by RunPanelKeepsInvariant |
| BetSection.RunPanelKeepsInvariant | src/components/BetSection.tsx:17-49 | after any series of keystrokes and dialog clicks, both fields still hold admitted text |
| BetSection.InitialPanelKeepsInvariant | src/components/BetSection.tsx:17-19 | from the initial empty fields, every reachable panel holds admitted text |
| RequestConfig.NormalizeLocale | src/i18n/request.ts:11 | the chosen locale is always one of en, ru, es, de, fr; a supported locale is kept; a missing or unsupported one becomes `en` |
| RequestConfig.NormalizeIdempotent | src/i18n/request.ts:11 | normalising twice is the same as normalising once |
| RequestConfig.NormalizeFallback | src/i18n/request.ts:11 | undefined, the empty string and unsupported codes (including a different case, `EN`) become `en` |
| RequestConfig.GetRequestConfig | src/i18n/request.ts:11-22 | the configuration's locale is supported and is the locale whose messages were loaded; its time zone is `UTC` |
| LanguageSelector.FindByCode | src/components/LanguageSelector.tsx:23 | `find` returns undefined iff no entry has the code, and otherwise the first entry with that code |
| LanguageSelector.LanguageCodesAreLocales | src/components/LanguageSelector.tsx:8-14 | the menu's codes are distinct and are exactly the routing locales en, ru, es, de, fr, in order |
| LanguageSelector.CurrentLanguageUnique | src/components/LanguageSelector.tsx:8-23 | the current language is the unique table entry whose code equals the locale |
| LanguageSelector.CurrentLanguage | src/components/LanguageSelector.tsx:23 | the current language is defined exactly when the locale is a supported one, and then it is a table entry carrying that locale's code |
| LanguageSelector.IndexOfFrom | src/components/LanguageSelector.tsx:26 | the search behind `replace` finds the first occurrence at or after the start, or reports that there is none |
| LanguageSelector.RemoveFirst | src/components/LanguageSelector.tsx:26 | `replace` with a string pattern leaves the path unchanged when the pattern is absent and otherwise shortens it by the pattern's length |
| LanguageSelector.RemoveFirstCutsFirstOccurrence | src/components/LanguageSelector.tsx:26 | `replace` cuts out exactly the first occurrence and keeps what is before and after it |
| LanguageSelector.ChangeLocalePath | src/components/LanguageSelector.tsx:26-27 | the new path always begins with `"/" + newLocale` |
| LanguageSelector.ChangeLocalePathCutsFirst | src/components/LanguageSelector.tsx:26-27 | if the first `"/" + locale` is at index i, the new path is `"/" + newLocale`, then the path before i, then the path after the occurrence |
| LanguageSelector.SwapLeadingLocale | src/components/LanguageSelector.tsx:26-27 | a path starting with `"/" + locale` gets that prefix swapped for `"/" + newLocale`, and the rest is unchanged |
| LanguageSelector.SameLocaleKeepsPath | src/components/LanguageSelector.tsx:26-27 | choosing the current locale on such a path returns the path unchanged |
| LanguageSelector.SwitchBackRestores | src/components/LanguageSelector.tsx:26-27 | switching old to new and then new to old restores a path that started with `"/" + old` |
| LanguageSelector.AbsentLocaleKeepsWholePath | src/components/LanguageSelector.tsx:26-27 | when `"/" + locale` does not occur, the whole path follows the new prefix |
| LanguageSelector.ReplaceIsFirstAndTextual | src/components/LanguageSelector.tsx:26-27 | only the first occurrence is cut (`/en/en` becomes `/de/en`), and matching ignores segment boundaries (`/english` becomes `/frglish`) |
| LanguageSelector.ReplaceCutsMidPath | src/components/LanguageSelector.tsx:26-27 | an occurrence in the middle is cut too: `/foo/en/bar` switched from `en` to `de` becomes `/de/foo/bar` |
| LanguageSelector.ToggleMenu | src/components/LanguageSelector.tsx:79 | the trigger button flips the open flag |
| LanguageSelector.ToggleMenuTwice | src/components/LanguageSelector.tsx:79 | two trigger clicks restore the flag |
| LanguageSelector.ChooseLanguage | src/components/LanguageSelector.tsx:25-30 | choosing a language closes the menu and pushes `"/" + newLocale` followed by the path with its first `"/" + locale` cut out, wherever that occurrence sits; a leading one is swapped, and with none the whole path follows the new prefix |
| RetryPolicy.ShouldRetry | src/providers/Web3Provider.tsx:48-54 | a 403 response is never retried; any other error, including one with no response or status, is retried iff `failureCount < 2` |
| RetryPolicy.IsForbidden | src/providers/Web3Provider.tsx:50 | no contract; the response status is 403, characterised by ShouldRetry and RetriedOnlyEarly |
| RetryPolicy.RetriedOnlyEarly | src/providers/Web3Provider.tsx:48-54 | a query is retried only at failure counts 0 and 1, and only if the status is not 403 |
| RetryPolicy.ShouldRetryMonotone | src/providers/Web3Provider.tsx:53 | once the policy refuses at count m, it refuses at every larger count |
| RetryPolicy.Pow2Monotone | src/providers/Web3Provider.tsx:55 | `2 ** n` is non-decreasing in n |
| RetryPolicy.RetryDelay | src/providers/Web3Provider.tsx:55 | the delay is within [1000, 30000]; it is 30000 exactly from attempt 5 on, and `1000 * 2^n` before that |
| RetryPolicy.RetryDelayMonotone | src/providers/Web3Provider.tsx:55 | the delay never decreases as the attempt index grows |
| RetryPolicy.RetryDelaySchedule | src/providers/Web3Provider.tsx:55 | the delays are 1000, 2000, 4000, 8000 and 16000 for attempts 0..4, and 30000 from attempt 5 on |

## Left out

- `Math.random` itself: its results are inputs (see above). When the supplied draws run out, the model returns `None`; the loops of `quickPick` and `throwLuckyNumbers` keep drawing until the set is full.
- `isThrowing`, the one-second `setTimeout` in `throwLuckyNumbers`, and the throw button's disabled state while throwing. The throw is modelled as one atomic step, because the delay only animates.
- React's render batching and stale closures. Two clicks are modelled as two sequential steps, each on the latest selection.
- The selected-count text, the sorted display of chips and other rendering in all components.
- `handlePlaceBet`, the bet bounds (`MIN_BET`, `MAX_BET`) and the confirm threshold in `BetSection.tsx`. They rely on `parseFloat` and IEEE-754 comparisons, including `NaN` for `"."`. A confirm's success is a boolean input.
- Keystrokes in the bet field and clicks on "add funds" are accepted while the dialog is open, although the dialog's full-screen overlay covers them; both are modelled as reachable.
- `router.push` is not performed. `ChooseLanguage` returns the path it would be given.
- The flag emoji and display names are data. Their rendering is not modelled.
- The dynamic import of `messages/<locale>.json` is a function parameter `load`. A missing messages file and the resulting exception are not modelled. `new Date()` is a parameter `now`. The `console.log` calls are not modelled.
- The wallet-SDK set-up in `Web3Provider.tsx`: the initialisation effect, the `localStorage` clearing, the `mounted`/`error` state and the environment-variable check. These are foreign SDK calls and I/O.
- How the query library counts failures and schedules timers. Only the two callbacks it is given are modelled.
- `hooks/useBalance.ts`, wallet connection, the page layout, the jackpot display, modal, header, Telegram viewport, middleware and configuration files. These are view glue, stubs, or wiring over SDKs that are not part of this model.
