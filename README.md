# ACA landing page: a Dafny model of its page logic

`script.js` drives a health-insurance landing page. Most of it wires up the
DOM. Four pieces of self-contained logic are modelled and proved here:

1. **Input handlers.** These are `JsString`, `Formatters` and `Email`.
   - The ZIP field's `input`, `keypress` and `paste` handlers, with their
     `valid` / `error` / unmarked classes.
   - The phone field's progressive `(ddd) ddd-dddd` mask.
   - The name fields' capitalisation on blur.
   - `isValidEmail`.
   Each handler is a function from what the field holds to what it holds
   afterwards.
2. **The lead form's submit path.** This is `Validation` and `Submission`.
   - Seven controls are read. The five text controls are trimmed; the
     household-size select and the consent box are used as read.
   - Six checks run in a fixed order, and the first one that fails decides
     the only message shown.
   - An accepted lead disables the submit button, relabels it and reports
     `form_submit`.
   - The completion callback then reports `qualified` with a six-digit claim
     number for the same ZIP code, shows the number and restores the button.
   - `LeadForm` is a class: the button, the captured lead of the pending
     callback, the error banner and the claim panel are its fields.
3. **Analytics.** This is `Analytics`.
   - `trackEvent` appends to an event log (`EventLog.Track`).
   - The page-view and time-on-page events are modelled.
   - The scroll-depth tracker is a class holding `maxScroll` and the set of
     reported marks. Each of 25, 50, 75 and 100 per cent is reported once, in
     increasing order, at the new maximum that first reaches it.
4. **The offer countdown.** This is `Countdown`.
   - Whole milliseconds are split into days, hours, minutes and seconds with
     `Math.floor` and JavaScript's sign-keeping `%`.
   - Each figure is written with `String(n).padStart(2, '0')`.
   - An end time that has passed is reset to thirty days after a second
     clock read.

Where the source reads the clock, draws a random number or measures the
page, the model takes the value as a parameter. The parameters are:
- the scroll percentage;
- the claim number, in its range;
- the two clock reads of one countdown tick;
- the elapsed milliseconds on the page.

Two facts about the code are worth stating up front:

- **Name capitalisation.** On ASCII letters the blur handler is idempotent
  (`NameBlurFixedPoints`) but lossy: "McDonald" becomes "Mcdonald"
  (`NameBlurLosesInnerCapitals`). Beyond ASCII, JavaScript's case mapping can
  change a string's length ("ß" upper-cases to "SS"), and that is not modelled.
- **White space.** JavaScript's `\s` and `trim` use the full ECMAScript
  WhiteSpace and LineTerminator sets, and `JsString.IsSpace` lists those code
  points. Only `toUpperCase` and `toLowerCase` are restricted to ASCII.

Two behaviours of the source are proved here rather than smoothed over:

- **The ZIP class follows every digit typed.** A sixth digit typed into a
  valid five-digit ZIP turns the field to `error`, while the field still
  holds five digits (which five depends on the caret: typed first, the new
  digit pushes out the last one).
- **The submit listener does not check the button.** A second submission is
  kept out only because a disabled submit button delivers no `submit` event.
  `LeadForm.Submit` models that as `Blocked`. Once the claim is shown the
  form container is hidden, so no further submit arrives either, and
  `Submit` is `Blocked` then too.

## Model

| member | source | states |
|---|---|---|
| JsString.IsDigit | script.js:119-122 | `\d`, and `/[0-9]/` of the ZIP key filter: the ten ASCII digits `0` to `9` and nothing else. `Digits`, `IsZip` and `OnZipKey` are stated in its terms. |
| JsString.IsSpace | script.js:159-163 | The white space `trim` strips and `\s` matches (line 252): the ECMAScript WhiteSpace code points (tab, vertical tab, form feed, space, no-break space, byte-order mark and the other Zs characters U+1680, U+2000 to U+200A, U+202F, U+205F, U+3000) and the LineTerminator code points (line feed, carriage return, U+2028, U+2029). |
| JsString.Digits | script.js:119 | `replace(/\D/g, '')` keeps only ASCII digits and never lengthens. An all-digit string is kept whole. |
| JsString.DigitsAppend | script.js:119 | Stripping non-digits distributes over concatenation. |
| JsString.TrimStart | script.js:159-163 | Definition of `trimStart`: leading white space dropped one character at a time. Its meaning is stated by `TrimStartFacts`. |
| JsString.TrimEnd | script.js:159-163 | Definition of `trimEnd`: trailing white space dropped one character at a time. Its meaning is stated by `TrimEndFacts`. |
| JsString.Trim | script.js:159-163 | Definition of `trim` as `trimEnd` after `trimStart`. Its meaning is stated by `TrimSplit`, `TrimEmpty` and `TrimUnchanged`. |
| JsString.TrimStartFacts | script.js:159-163 | `trimStart` removes a maximal prefix of white space, and only that. |
| JsString.TrimEndFacts | script.js:159-163 | `trimEnd` removes a maximal suffix of white space, and only that. |
| JsString.TrimSplit | script.js:159-163 | `trim(s)` is the middle of `s` between an all-space prefix and an all-space suffix. The result neither starts nor ends with white space. |
| JsString.TrimEmpty | script.js:169 | A trimmed value is empty iff the raw value is all white space. |
| JsString.TrimUnchanged | script.js:159-163 | A value with no white space at either end is its own trim. |
| JsString.TrimKeepsDigits | script.js:179 | Trimming keeps every digit, so the phone check may look at the raw value. |
| JsString.ToUpper | script.js:427 | `toUpperCase` on one character maps ASCII lower-case letters to upper case and leaves every other character alone. |
| JsString.ToLower | script.js:427 | `toLowerCase` on one character maps ASCII upper-case letters to lower case and leaves every other character alone. |
| JsString.LowerAll | script.js:427 | `toLowerCase` on a string lower-cases it character by character and keeps its length. |
| Email.Count | script.js:252 | No occurrence of `c` iff the count is 0. |
| Email.IsValidEmail | script.js:251-253 | What `/^[^\s@]+@[^\s@]+\.[^\s@]+$/` matches: a split at an `@` and a later `.` into three non-empty runs free of white space and `@`. `EmailShapeIff` turns it into a check on the whole address. |
| Email.IndexOf | script.js:252 | The first position of `c`, or the length when `c` is absent. |
| Email.IndexOfFirst | script.js:252 | A position holding `c`, with no `c` before it, is what `IndexOf` returns. |
| Email.EmailShapeIff | script.js:251-253 | `isValidEmail` holds iff the address has no white space, exactly one `@`, something before the `@`, and after it a `.` that is neither first nor last. |
| Email.ShapeOfValid | script.js:252 | Every match of the regular expression has that shape. |
| Email.ShapeOfSplit | script.js:252 | A split into local part, domain and suffix, as the regular expression matches it, gives that shape. |
| Email.SplitAt | script.js:252 | A matched address has exactly one `@`, no white space, and a domain without `@`. |
| Email.ValidOfShape | script.js:252 | Every address of that shape is matched by the regular expression. |
| Email.DomainPlain | script.js:252 | In an address of that shape, everything after the `@` is free of white space and `@`. |
| Formatters.IsZip | script.js:12 | `CONFIG.zipCodePattern`, `/^\d{5}$/`: exactly five ASCII digits. `OnZipInput` and `AcceptedLeadOk` state what passing it means for the field and the lead. |
| Formatters.OnZipInput | script.js:118-131 | The value becomes the input's digits, cut to five. The class is `valid` iff the uncut digits are exactly five, `error` iff they are some other non-zero number, and neither iff there are none. |
| Formatters.ZipInputStable | script.js:118-131 | Running the handler again keeps the value. Only an `error` caused by six or more digits changes, to `valid`. |
| Formatters.OnZipPaste | script.js:413-419 | A paste replaces the value with the first five pasted digits, then the `input` handler rules on that value. |
| Formatters.OnZipKey | script.js:405-410 | A non-digit key changes nothing. A digit key is inserted at the caret and the `input` handler runs. |
| Formatters.SixthDigitMarksError | script.js:119-126 | A sixth digit typed into a valid ZIP marks the field `error`, although it still holds five digits. |
| Formatters.OnPhoneInput | script.js:136-150 | The output fits the template `(###) ###-####` from the left. Its length is fixed by the digit count (0 for none, n+1 up to 3, n+3 up to 6, min(n,10)+4 beyond). Its digits are the first min(n,10) input digits. |
| Formatters.Mask | script.js:137-149 | Definition of the three-way template on a string of digits. Its meaning is stated by `MaskFacts`, `MaskFits`, `MaskKeepsDigits` and `PhoneMaskIdempotent`. |
| Formatters.MaskFacts | script.js:137-149 | The same three facts for the mask on a string of digits. |
| Formatters.MaskFits | script.js:139-146 | The mask puts digits in the `#` places and the template's own characters elsewhere. |
| Formatters.MaskKeepsDigits | script.js:139-146 | The mask keeps the first min(n,10) digits, in order. |
| Formatters.MaskKeepsDigitsMiddle | script.js:142-143 | From four to six digits, the output `(ddd) ddd` keeps them all. |
| Formatters.MaskKeepsDigitsLong | script.js:144-145 | From seven digits on, the output `(ddd) ddd-dddd` keeps the first ten. |
| Formatters.Punctuation | script.js:141-145 | The template's punctuation `(`, `) ` and `-` holds no digits, so the mask's digits are exactly the input digits it places. |
| Formatters.PhoneMaskIdempotent | script.js:136-150 | Masking the mask's own output changes nothing. |
| Formatters.OnNameBlur | script.js:425-429 | An empty value is kept. Otherwise the length is kept, the first character is upper-cased and the rest lower-cased. |
| Formatters.NameBlurFixedPoints | script.js:425-429 | On ASCII case mapping, the values the handler keeps are exactly the capitalised ones, and every output is one, so a second blur changes nothing. |
| Formatters.NameBlurLosesInnerCapitals | script.js:427 | "McDonald" becomes "Mcdonald". |
| Validation.Validate | script.js:158-197 | Definition of the submit listener's checks: the controls trimmed, the six checks in source order, the first failure's message, else the lead. Its meaning is stated by `AcceptsIffAllPass`, `RejectsAtFirstFailure` and `AcceptedLeadOk`. |
| Validation.StepMeansPasses | script.js:169-187 | Each check on the trimmed values is equivalent to the stated condition on the raw controls. |
| Validation.NameStep | script.js:169 | The name check fails iff the first or last name is all white space. |
| Validation.EmailStep | script.js:174 | The e-mail check fails iff the trimmed address lacks the accepted shape. |
| Validation.PhoneStep | script.js:179 | The phone check fails iff the raw phone value holds fewer than ten digits. |
| Validation.AllPassExpanded | script.js:169-197 | All six checks pass iff each of them passes. |
| Validation.MessagesDistinct | script.js:170-195 | The six messages differ, so a message names its check. |
| Validation.RejectsAtFirstFailure | script.js:169-197 | Rejection with check k's message holds iff check k fails and every earlier check passes. |
| Validation.RejectionIsFirstFailure | script.js:169-197 | Rejection with check k's message implies check k fails and all earlier ones pass. |
| Validation.FirstFailureRejects | script.js:169-197 | The first failing check's message is the one shown. |
| Validation.AcceptsIffAllPass | script.js:158-197 | A snapshot is accepted iff all six checks pass. The lead then holds the trimmed controls and the untrimmed household size. |
| Validation.AcceptedLeadOk | script.js:158-197 | An accepted lead has both names, an address of the accepted shape, ten phone digits, a five-digit ZIP and a household size, and consent was given. |
| Validation.HouseholdNotTrimmed | script.js:164-189 | A household size of one blank passes, because that control is not trimmed. |
| Validation.AcceptsClean | script.js:158-197 | A form needing no trimming that passes every check is accepted with its controls as typed. |
| Validation.ExampleFieldsClean | script.js:158-187 | The example controls need no trimming and pass their checks. |
| Validation.ExampleClean | script.js:159-163 | The example names and ZIP are their own trim. |
| Validation.ExampleAccepted | script.js:158-197 | john / DOE / john.doe@example.com / a ten-digit phone / 90210 / 2 / consent is accepted unchanged; the names are not capitalised on submit. |
| Validation.ExampleEmailValid | script.js:252 | `john.doe@example.com` is accepted by `isValidEmail`. |
| Analytics.EventLog.constructor | script.js:477-504 | The log of what `trackEvent` has reported starts empty. |
| Analytics.EventLog.Track | script.js:477-504 | `trackEvent` appends its event to what every sink sees. |
| Analytics.PageViewEvent | script.js:438-441 | The event is named `page_view` and carries the path. It always carries a non-empty referrer: the page's own when there is one, and `direct` only when the page has none. |
| Analytics.TimeOnPageSeconds | script.js:468 | `Math.round(elapsed / 1000)`: the nearest whole second, halves rounded up. |
| Analytics.CrossedMembers | script.js:456-461 | A scroll to p reports exactly the marks at or below p that are not yet tracked. |
| Analytics.CrossedThresholds | script.js:445-461 | The `forEach` looks at 25, 50, 75 and 100 in that order. |
| Analytics.Crossed | script.js:456-461 | Definition of the marks one scroll reports: the `forEach` over the marks, keeping each that `Mark` keeps. Its meaning is stated by `CrossedMembers`, `ReachedGrows` and `ReportedMarksLieBetween`. |
| Analytics.Mark | script.js:457 | Definition of one `forEach` step: the mark when it is at or below the percentage and not yet tracked, else nothing. `Visit` proves the loop turn does this. |
| Analytics.ScrollTracker.constructor | script.js:444-446 | `maxScroll` starts at 0 with no mark tracked or reported, and the invariant holds. |
| Analytics.ScrollTracker.Update | script.js:448-463 | The listener keeps the invariant. A percentage at or below the maximum changes nothing. A new maximum becomes `maxScroll`, and the marks it crosses are added to the set, appended to the reported ones and logged as `scroll_depth` events, in order. |
| Analytics.ScrollTracker.Report | script.js:456-461 | The `forEach` loop adds and logs exactly the crossed marks, in order. |
| Analytics.ScrollTracker.Visit | script.js:457-460 | One turn of the loop adds and logs its mark iff the mark is at or below the percentage and not yet tracked. |
| Analytics.CrossedStep | script.js:456 | One more loop turn looks at one more mark. |
| Analytics.AppendMark | script.js:458-459 | Reporting at most one more mark adds its event and its set member. |
| Analytics.ElemsAppend | script.js:458 | The tracked set of a concatenation is the union of the sets. |
| Analytics.ReachedNothingAtZero | script.js:444-446 | With `maxScroll` at 0, nothing has been reported. |
| Analytics.DistinctAfter | script.js:445 | No mark occurs twice in the list. |
| Analytics.ReachedIncreasing | script.js:445-461 | The marks reported so far are strictly increasing, so none is reported twice. |
| Analytics.ReachedGrows | script.js:453-461 | Moving the maximum from m up to p reports exactly the marks that p reaches and m did not, after the earlier ones. |
| Analytics.CrossedSplit | script.js:453-461 | Over increasing marks, those up to m followed by the untracked ones up to p are those up to p. |
| Analytics.CrossedNone | script.js:457 | Marks that are all tracked report nothing. |
| Analytics.CrossedSame | script.js:457 | Marks all at or below m are reported alike by any scroll to m or beyond. |
| Analytics.ReportedMarksLieBetween | script.js:453-461 | A new maximum p over m reports a mark iff the mark lies above m and at or below p. |
| Analytics.ExampleCrossings | script.js:453-461 | Scrolling to 10, 30, 28, 80 reports nothing, then 25, then nothing, then 50 and 75. |
| Submission.LeadForm.constructor | script.js:153-154 | A fresh form has an enabled button, nothing pending and no events. |
| Submission.LeadForm.Submit | script.js:154-221 | A disabled button or a hidden form delivers no submit. A rejected snapshot shows its message and changes nothing else, reporting no event. An accepted one saves the button text, disables and relabels the button, reports `form_submit` with the ZIP and household size, and leaves pending the lead `Validate` accepted from that snapshot. |
| Submission.LeadForm.ShowFormError | script.js:258-273 | The banner shows the new message in place of any earlier one, and nothing else changes. |
| Submission.LeadForm.StartRequest | script.js:199-209 | Given a lead `Validate` accepted from the controls, the button text is saved, the button disabled and relabelled, and `form_submit` appended with the lead's ZIP and household size. The invariant keeps the controls of the pending submission. |
| Submission.LeadForm.Complete | script.js:212-236 | The callback shows the claim number, reports `qualified` with the pending lead's ZIP, re-enables the button, restores its text and ends the pending state. The lead it qualifies passed all six checks on its submission's controls, satisfies `LeadOk`, and its ZIP is that submission's trimmed ZIP. |
| Submission.CyclesPush | script.js:202-209 | A new submission's `form_submit` becomes the pending one. |
| Submission.CyclesAlternate | script.js:206-232 | With nothing pending, the form's events alternate: `form_submit`, then `qualified` for the same ZIP with a claim number in range. |
| Submission.QualifiedFollowsSubmit | script.js:206-232 | Every `qualified` directly follows a `form_submit` for the same ZIP code. |
| Submission.Cycles | script.js:199-236 | Definition of the form's event history: complete `form_submit`/`qualified` pairs for one ZIP code with a claim number in range, then a lone `form_submit` of the pending lead. Its consequences are stated by `CyclesAlternate` and `QualifiedFollowsSubmit`. |
| Countdown.JsRemSign | script.js:91-93 | JavaScript's `%` equals the Euclidean remainder on a non-negative dividend, and is never positive on a negative one. |
| Countdown.JsRem | script.js:91-93 | Definition of JavaScript's `%` by a positive divisor: the remainder keeps the dividend's sign. Its meaning is stated by `JsRemSign`. |
| Countdown.Decompose | script.js:90-93 | Definition of the four figures `Math.floor` and `%` compute. Its meaning is stated by `DecomposeBounds`, `FiguresBelowHundred` and `FullSpan`. |
| Countdown.DecomposeBounds | script.js:90-93 | For a distance d ≥ 0: days ≥ 0, hours < 24, minutes < 60 and seconds < 60. The sum days·86400000 + hours·3600000 + minutes·60000 + seconds·1000 is at most d, and d is below that sum plus 1000. |
| Countdown.FiguresBelowHundred | script.js:90-93 | Below a hundred days, every figure has at most two digits. |
| Countdown.FullSpan | script.js:78-93 | A full thirty-day distance shows 30, 0, 0, 0. |
| Countdown.IntToString | script.js:95-98 | `String(n)` for a whole number: a `-` before the digits of a negative one. `NatToString` and `NatToStringValue` state what the digits are. |
| Countdown.NatToString | script.js:95-98 | `String(n)` for n ≥ 0 is at least one decimal digit, exactly one iff n < 10, and has no leading `0` from 10 on. With `NatToStringValue` this fixes the string. |
| Countdown.NatToStringValue | script.js:95-98 | `String(n)` spells n in decimal. |
| Countdown.PadStart | script.js:95-98 | `padStart(width, fill)` keeps a long enough string. Otherwise it prepends fill characters up to the width, with the original as the suffix. |
| Countdown.Cell | script.js:95-98 | One element's text, `String(n).padStart(2, '0')`. Its meaning is stated by `CellTwoDigits`. |
| Countdown.CellTwoDigits | script.js:95-98 | A figure from 0 to 99 is shown as exactly two digits spelling it, with a leading `0` below ten. |
| Countdown.CellOneDigit | script.js:95-98 | A figure from 0 to 9 is shown as `0` followed by its digit. |
| Countdown.CellTwoDigitFigure | script.js:95-98 | A figure from 10 to 99 is shown as its own two digits, which spell it. |
| Countdown.PairValue | script.js:95-98 | Two digits stand for ten times the first plus the second. |
| Countdown.Show | script.js:95-98 | The four elements' texts from the four figures. Its meaning is stated by `FaceTwoDigits`. |
| Countdown.FaceTwoDigits | script.js:90-98 | Below a hundred days, all four elements show two digits spelling their figures. |
| Countdown.NextEnd | script.js:84-88 | Definition of the end time after one tick: reset to a full span after the second clock read when the distance is negative, else kept. Its meaning is stated by `NextEndFacts`. |
| Countdown.NextEndFacts | script.js:84-88 | An end time still ahead is kept. A passed one moves to a full span after the second clock read. The distance is then never negative unless the clock went back, it shows at least 30 days, and it is exactly 30:00:00:00 when both reads agree. |
| Countdown.CountdownTimer.constructor | script.js:78 | The end time starts thirty days after load. |
| Countdown.CountdownTimer.Tick | script.js:80-99 | One tick moves the end time as `NextEnd` says and shows the decomposed distance to it. |

`Analytics.ScrollExample` walks one tracker through the scroll sequence 10,
30, 28, 80 step by step. `Submission.SubmissionScenario` walks one form
through submit, a refused second submit, completion, and a blocked submit
after completion. Both are methods with assertions along the way and no
contract of their own.

## Left out

- The DOM is left out: element lookups, `classList` and `style` writes, `scrollIntoView`, `insertBefore` and `remove`, and `showSuccess`'s markup. What they change is modelled only as fields. `LeadForm.claimShown` stands for the claim panel being shown, with the form hidden.
- Element lookups that find nothing are left out. A missing control reads as `undefined`, which every check treats like an empty string or an unticked box, so `Snapshot` holds strings and a boolean.
- Timers are left out. The 1.5 s delay before completion is the separate call `LeadForm.Complete`. The 1 s countdown interval is repeated calls of `CountdownTimer.Tick`.
- Submission.LeadForm.ShowFormError: the error banner's removal after 5 s is not modelled. The banner stays until the next message replaces it.
- Analytics.ScrollTracker.Update: takes the scroll percentage as an integer. The floating-point `Math.round(scrollY / (scrollHeight - innerHeight) * 100)` and its NaN or infinite cases are not modelled.
- Submission.LeadForm.Complete: takes the claim number as a parameter in [100000, 999999], the range `Math.floor(100000 + Math.random() * 900000)` yields.
- Analytics.TimeOnPageSeconds: takes the elapsed time as a natural number of milliseconds. Floating-point division and a clock that goes back are not modelled.
- The countdown works on whole milliseconds and integer quotients. The floating-point quotient `distance / 86400000` is usually rounded, but for every distance whose magnitude is below about 2^53 ms, `Math.floor` of the rounded quotient is still the integer quotient, so the four figures are exact. Distances beyond that, where rounding can change a figure, are not modelled.
- Clock reads are parameters: `now` and `resetNow` for a tick, `now` for the constructor.
- Case mapping covers ASCII letters only (`JsString.ToUpper`, `JsString.ToLower`). Unicode case mapping, which can change a string's length, is not modelled.
- `trackEvent`'s sinks are left out. The console line on localhost is all that runs, and the other analytics calls are commented out, so the event log stands for all of them.
- The `phone_click` and `phone_hover` events of the click-to-call links are left out. They belong to link wiring outside the modelled logic.
- Device detection is left out: the user-agent test, the viewport width and the reload on resize.
- Scroll animations, the header shadow, smooth scrolling and the injected CSS are left out.
- The regular expression engine is left out. `isValidEmail` is modelled by what its pattern matches, stated directly, not by backtracking.
