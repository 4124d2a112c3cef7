# ScrollTransitionTemplate engine, modelled in Dafny

ScrollTransitionTemplate turns the vertical scroll position of a page into style values such as width, height, scale, opacity and font size.

Doms are registered in groups called *divisions*. A division owns an interval `[start, end)` of the registry's dom list. It says which share of the scroll range it spans (`globalFragment`) and how that share is cut into sub-windows (`localFragments`). It also gives the largest value it writes (`maxValue`), the styles it changes (`styleFlags`), and whether it starts from the peak.

On every scroll event:
- each dom of each division gets a local index;
- `getPeakValley` decides whether the scroll position lies inside that index's sub-window;
- if it does, a sine or cosine wave shapes the value; if not, the value is zero.

The model covers:

- **`MiniTools`** (`mini_tools.dfy`, modules/mini-tools.js):
  - `keepNumberOfArrayMember`, including its in-place push;
  - `keepInside100Percent`;
  - `isNumber`;
  - `filterNumberFromString`, as two loops proved against a reference parser `NumberInString`.
- **`Waveform`** (`waveform.dfy`): the parts both versions of `getPeakValley` share.
  - The prefix sums of `localFragments[i] * globalFragment` and the accumulation loop that computes them.
  - The window predicates of the zero test.
  - The local phase.
  - The choice of wave (sine or cosine) and wave-length factor (1 or 2).
  - The bounded amplitude.
- **`TransitionModule`** (`transition_module.dfy`, modules/scroll-transition.js):
  - the `Division` class and the `ScrollTransition` registry class, with `add` and `drop`;
  - the scroll handler's loops, as a plan of style writes;
  - `getPeakValley`, whose last sub-window has no upper cut-off.
- **`TransitionRoot`** (`transition_root.dfy`, scroll-transition.js): the older self-contained version.
  - Its colliding style flags.
  - An `add` that rejects only an empty array, and the same `drop`.
  - A `getPeakValley` that cuts off the last sub-window too and can answer with a string.
  - Its `Division` constructor is the same code as the module version, so `TransitionModule.Division` stands for both. Its static helpers (scroll-transition.js:44-98) are the same code as modules/mini-tools.js:11-65, so the `MiniTools` members stand for them.
- **`PageScript`** (`page_script.dfy`, script.js): `getFragmentInterval` and the `middleScrollYPercentage` ladder. The `isLandscape` global is a parameter.
- **Supporting modules:**
  - `JsArrays` (`js_arrays.dfy`): a mutable array object for `push`, and JavaScript's `slice`.
  - `Wrappers` (`wrappers.dfy`): `Option`.

## Modelling choices

- **π and the trigonometric functions:**
  - `Math.PI` is the positive constant 3.141592653589793.
  - `Math.sin` and `Math.cos` are carried in a `Trig` value. `Bounded(trig)` states that they lie in [-1, 1].
  - Every window comparison multiplies both sides by π, so the zero test is exact on reals (`Waveform.WindowComparisonIsExact`).
- **NaN:** a JavaScript number that can come out of `getPeakValley` is `Num`, either `Real(v)` or `NaN`. NaN arises exactly where the source divides by a zero or `undefined` fragment.
- **Powers of ten:** `Math.pow(10, n)` in `filterNumberFromString` becomes `Scaled(x, n)`, which multiplies by ten n times, and `Shifted(x, n)`, which divides by ten n times. `ScaledIsPowerOfTen` and `ShiftedUndoesScaled` tie the two to the same power of ten.
- **`keepNumberOfArrayMember`:**
  - The `type` switch is the `filler` parameter: 0 for `'number'`, the default type.
  - A `null` `JsArray` stands for an argument that is not an array.
- **Registries and divisions:**
  - A registry's `doms` and `divisions` are sequences that `add` and `drop` reassign.
  - A `Division` is an object with constant fields, because `drop` looks it up by identity (`===`).
- **The scroll handler:** it is modelled as the plan of writes its loops make, `(dom index, style key, pixel or raw, local index, division)`. `Performed` cuts the plan at the first write to a dom the list does not have, where `this.doms[i].style` throws.
- **Where the code and its documentation disagree, the model follows the code:**
  - The code derives the local index as `i - start + 1` when a division does not start at dom 0, not `i - start` (`IndexInput`). So the first dom of a later division gets index 1. With one local fragment per dom, its last dom gets an index past the fragments, which is always zeroed (`IndexPastFragments`).
  - `drop` neither removes exactly the division's doms nor removes the division (see Findings).
  - Only the module version rejects a non-array doms parameter.

## Model

| member | source | states |
|---|---|---|
| MiniTools.KeepNumberOfArrayMember | modules/mini-tools.js:11-48 | count <= 0 gives []; a non-array gives defArr; a longer array gives its first count members; an array of exactly count members is returned as is; a shorter array gets exactly one filler pushed in place and defArr is returned, not the padded array |
| MiniTools.KeptMembers | modules/mini-tools.js:17-47 | the answer is [] for count <= 0, otherwise defArr or exactly count members, and the first count members of any array at least that long, and defArr for a non-array or an array shorter than count |
| MiniTools.KeepInside100Percent | modules/mini-tools.js:57-65 | the result lies in (0,1] with preventZero and in [0,1] without; it is 0.0001 (or 0) at or below zero, 1 above one, and the value itself on (0,1] |
| MiniTools.KeepInside100PercentIdempotent | modules/mini-tools.js:57-65 | clamping twice equals clamping once |
| MiniTools.ParseInt | modules/mini-tools.js:75 | parseInt of one character is a number exactly for '0' to '9', and then it is that digit's value (the digit at that position of "0123456789"); anything else is NaN |
| MiniTools.IsNumber | modules/mini-tools.js:74-77 | true exactly for the characters '0' to '9' |
| MiniTools.DotIndex | modules/mini-tools.js:102-105 | a position within the string, holding a '.' when it is not the length |
| MiniTools.DotIndexIsFirst | modules/mini-tools.js:102-105 | no '.' comes before DotIndex, so it is the first '.', and there is none when DotIndex is the length |
| MiniTools.Scaled | modules/mini-tools.js:117 | multiplying a non-negative value by a power of ten does not shrink it, and zero stays zero |
| MiniTools.Shifted | modules/mini-tools.js:119 | dividing a non-negative value by a power of ten keeps it between 0 and the value |
| MiniTools.ScaledIsPowerOfTen | modules/mini-tools.js:117 | Scaled(x, n) is x times 10^n, with 10^n written as Scaled(1, n) |
| MiniTools.ShiftedUndoesScaled | modules/mini-tools.js:119 | Shifted(x, n) times 10^n gives x back: Shifted is division by 10^n |
| MiniTools.NumberInString | modules/mini-tools.js:87-124 | the value of the digits before the first '.' plus the digits after it over ten to their count, and never negative |
| MiniTools.NoDigitsIsZero | modules/mini-tools.js:96-123 | a string without digits yields 0 |
| MiniTools.SkippedCharacter | modules/mini-tools.js:96-106 | a character that is neither a digit nor the first '.' (a '-', a letter, a later '.') does not change the result |
| MiniTools.ScannedMeaning | modules/mini-tools.js:96-106 | after any prefix, the first loop has put the whole digits and the first '.' in numArr[0], the fraction digits in numArr[1], and counted the whole digits |
| MiniTools.Scanned | modules/mini-tools.js:96-106 | the first loop's variables (numArr's two rows, isDotPushed, wholeCount) after reading a prefix, one character at a time; ScannedMeaning states what they hold and SortDigits is proved against it |
| MiniTools.SortDigits | modules/mini-tools.js:96-106 | the first loop leaves numArr as the sorted cells of the string, and wholeCount as the number of whole digits |
| MiniTools.AddUpRow | modules/mini-tools.js:109-120 | one row of the second loop adds the place values of its digits, or stops at the '.' and switches to fraction mode |
| MiniTools.AddUpCells | modules/mini-tools.js:108-121 | the second loop adds the whole part, then the fraction part, from the sorted cells |
| MiniTools.FilterNumberFromString | modules/mini-tools.js:87-124 | the two loops compute NumberInString of the string |
| Waveform.ScrollFragment | modules/scroll-transition.js:250-251 | getScrollFragment: the share sub-window i spans, positive when its local fragment and the global fragment are |
| Waveform.RadianSum | modules/scroll-transition.js:266-277 | the radians of the first n sub-windows in order; RadianSumIsScaledSum and RadianSumIncreasing state its value and growth |
| Waveform.Included | modules/scroll-transition.js:269-273 | the loop adds the fragments with index at most maxIndex, and no more than there are |
| Waveform.AccumulatedRadian | modules/scroll-transition.js:266-277 | getAccumulationFragmentsRadian: 0 for a negative maxIndex, and the radians of all sub-windows once maxIndex reaches the last index |
| Waveform.AccumulateFragmentsRadian | modules/scroll-transition.js:266-277 | the loop with its early break yields the prefix sum of fragment·π over the indices up to maxIndex |
| Waveform.RadianSumIsScaledSum | modules/scroll-transition.js:266-277 | the accumulated radians are π · globalFragment · (sum of the local fragments) |
| Waveform.WindowComparisonIsExact | modules/scroll-transition.js:289-293 | comparing π·s with accumulated radians is comparing s with the accumulated share: π cancels |
| Waveform.RadianSumIncreasing | modules/scroll-transition.js:266-277 | with positive fragments the prefix sums strictly increase |
| Waveform.BeforeWindow | modules/scroll-transition.js:289 | the first half of the zero test: a later index whose previous accumulated radians the scroll radian has not passed |
| Waveform.PastWindow | modules/scroll-transition.js:290 | the second half of the zero test: the scroll radian beyond the index's accumulated radians |
| Waveform.BeyondFragmentsIsZeroed | modules/scroll-transition.js:282-293 | an index at or past the fragment count is always before or past its window |
| Waveform.WindowsDisjoint | modules/scroll-transition.js:289-293 | with positive fragments, for i < j the position is past window i or before window j |
| Waveform.SomeWindowHolds | modules/scroll-transition.js:289-293 | up to the total radians some sub-window holds the scroll position |
| Waveform.Phase | modules/scroll-transition.js:299 | the scroll radian less the radians before the sub-window, for a later index; PhaseInWindow bounds it |
| Waveform.PhaseInWindow | modules/scroll-transition.js:299 | inside its window a later sub-window's phase lies in (0, fragment·π] |
| Waveform.ShapeOf | modules/scroll-transition.js:315-327 | the wave-length factor is positive |
| Waveform.CosineOnlyAtFirstPeak | modules/scroll-transition.js:315-320 | the cosine is used exactly at index 0 when starting from the peak; index 0 is tested before the last index |
| Waveform.DoubledOnlyAtEndsOfPeak | modules/scroll-transition.js:315-327 | the factor is 2 exactly at index 0 or the last index when starting from the peak, and 1 otherwise |
| Waveform.Amplitude | modules/scroll-transition.js:305-313 | NaN exactly for a zero fragment; otherwise, with bounded sin and cos, a value in [0, maxValue] |
| Waveform.PeakValue | modules/scroll-transition.js:250-329 | NaN exactly when the index has no fragment or its fragment is zero; otherwise within [0, maxValue] |
| TransitionModule.Division.constructor | modules/scroll-transition.js:15-34 | globalFragment and maxValue are clamped into (0,1]; domsInterval goes through keepNumberOfArrayMember(…, 2), with its in-place push; localFragments, styleFlags and startFromPeak are stored as given; isDivision is true |
| TransitionModule.IsParamUndefined | modules/scroll-transition.js:89-94 | false exactly for false, null, undefined, '' and NaN; every number, 0 included, counts as supplied |
| TransitionModule.ScrollTransition.constructor | modules/scroll-transition.js:65-73 | stores the given doms, divisions and orientation |
| TransitionModule.ScrollTransition.Add | modules/scroll-transition.js:88-136 | a non-array or empty doms parameter returns nothing and changes nothing; otherwise a fresh division with interval [old length, old length + n] and defaulted, clamped parameters is appended and returned, and doms becomes old doms followed by the new ones |
| TransitionModule.ScrollTransition.Drop | modules/scroll-transition.js:145-165 | undefined throws and an object with a falsy isDivision changes nothing; for a division, doms lose [start, end] inclusive, the division list never changes, and the call throws exactly when the division is registered |
| TransitionModule.ScrollTransition.DropCorrected | modules/scroll-transition.js:145-165 | the documented drop: doms lose exactly [start, end) and the division's first occurrence leaves the list |
| TransitionModule.DomsAfterDrop | modules/scroll-transition.js:149-151 | the dom list drop leaves as written, doms before start and from end + 1 on; DropRemovesOneMore and AddThenDropLosesNext state what it loses |
| TransitionModule.DomsAfterDropCorrected | modules/scroll-transition.js:149-151 | the documented removal of [start, end); AddThenDropCorrected states it undoes add |
| TransitionModule.DropRemovesOneMore | modules/scroll-transition.js:149-151 | inside the list, drop leaves doms[..start] + doms[end+1..] and removes end − start + 1 doms |
| TransitionModule.AddThenDropLosesNext | modules/scroll-transition.js:149-151 | after an add, dropping that division also loses the first dom added after it |
| TransitionModule.AddThenDropAtTail | modules/scroll-transition.js:149-151 | dropping the division added last leaves exactly the doms from before it |
| TransitionModule.AddThenDropCorrected | modules/scroll-transition.js:149-151 | the corrected removal undoes add: the doms before and after, in order |
| TransitionModule.RemoveFirst | modules/scroll-transition.js:154-162 | the list is unchanged when the division is absent, and one shorter when it is present |
| TransitionModule.RemoveFirstMultiset | modules/scroll-transition.js:157-159 | exactly one copy of the division goes, and nothing else |
| TransitionModule.RemoveFirstAt | modules/scroll-transition.js:157-159 | the first occurrence at position i leaves divisions[..i] + divisions[i+1..] |
| TransitionModule.StyleOf | modules/scroll-transition.js:210-228 | the flags 0 to 4 select a style and any other flag is skipped; WIDTH drives width, HEIGHT height, SCALE scale, OPACITY opacity and FONT_SIZE fontSize; WIDTH, HEIGHT and FONT_SIZE write pixels, SCALE and OPACITY write the value itself |
| TransitionModule.IndexInput | modules/scroll-transition.js:197-202 | inside an interval the local index is the offset from its start, plus one unless the interval starts at dom 0, and never negative |
| TransitionModule.FlagWrites | modules/scroll-transition.js:210-229 | the writes for one dom, one per known flag in flag order; FlagWritesShape states their form |
| TransitionModule.DomWrites | modules/scroll-transition.js:207-230 | the writes for the doms of a division below an index, ascending; DomWritesShape states their form |
| TransitionModule.Plan | modules/scroll-transition.js:204-231 | the writes of one scroll event, division by division in list order; PlanStaysInIntervals and NothingThrowsWhenIntervalsFit state what it touches |
| TransitionModule.ScrollTransition.DispatchPlan | modules/scroll-transition.js:204-231 | the loops produce Plan of the divisions: divisions in list order, doms ascending, flags in order |
| TransitionModule.DivisionPlan | modules/scroll-transition.js:207-230 | the middle loop produces the writes of every dom of the interval |
| TransitionModule.DomPlan | modules/scroll-transition.js:208-229 | the inner loop produces one write per known flag, in flag order |
| TransitionModule.Performed | modules/scroll-transition.js:213-225 | the writes that happen are the longest prefix of the plan that lands on existing doms; the next write, if any, is the one that throws |
| TransitionModule.PlanStaysInIntervals | modules/scroll-transition.js:204-231 | every planned write belongs to a registered division, lies in its interval, and carries getIndexInput's local index |
| TransitionModule.NothingThrowsWhenIntervalsFit | modules/scroll-transition.js:204-231 | when every interval lies inside the dom list, the whole plan is performed |
| TransitionModule.Zeroed | modules/scroll-transition.js:289-293 | the zero test of this version: before the window, or past it unless the index is the last; ExactlyOneWindowLive states that it leaves exactly one window live |
| TransitionModule.PeakValley | modules/scroll-transition.js:248-330 | zero before the window, and past it except at the last index; NaN exactly when the index passes the test with no or a zero fragment; otherwise within [0, maxValue] |
| TransitionModule.ExactlyOneWindowLive | modules/scroll-transition.js:289-293 | with positive fragments exactly one sub-window is live at any scroll position; the last one takes every position past the total |
| TransitionModule.IndexPastFragments | modules/scroll-transition.js:250-293 | an index past the fragments yields 0, except index 0 of a division without fragments at s <= 0, which yields NaN |
| TransitionModule.AddTwoDropFirst | modules/scroll-transition.js:124-165 | adding [10, 20] and then [30], and dropping the first division, leaves no doms and keeps the division registered |
| TransitionModule.AddTwoDropFirstCorrected | modules/scroll-transition.js:124-165 | the same calls with the corrected drop leave [30] and unregister the division |
| TransitionRoot.StyleKeyOf | scroll-transition.js:236-249 | flags 0 to 2 select a style: OPACITY opacity, WIDTH width, HEIGHT height; SCALE selects height, because HEIGHT shares its value and comes first, so 'scale' is never written |
| TransitionRoot.Zeroed | scroll-transition.js:306-311 | the zero test of this version: before or past the window at every index; AtMostOneWindowLive and SomeWindowLiveIffWithinTotal state what it leaves live |
| TransitionRoot.PeakValley | scroll-transition.js:270-349 | a string exactly when returnAsString; zero before or past the window at every index, the last included; NaN and the [0, maxValue] bound as in the module version |
| TransitionRoot.AgreesWithModuleVersion | scroll-transition.js:306-311 | the two versions give the same number except at the last index past its window, where this version gives zero |
| TransitionRoot.AtMostOneWindowLive | scroll-transition.js:306-311 | with positive fragments no two sub-windows are live at once |
| TransitionRoot.SomeWindowLiveIffWithinTotal | scroll-transition.js:306-311 | with positive fragments some sub-window is live exactly when π·s is at most the total radians |
| TransitionRoot.ScrollTransition.constructor | scroll-transition.js:125-133 | stores the given doms, divisions and orientation |
| TransitionRoot.ScrollTransition.Add | scroll-transition.js:146-169 | only an empty (or left-out) doms array is turned away; otherwise the interval is [old length, old length + n], the division is appended, and the doms are concatenated |
| TransitionRoot.ScrollTransition.Drop | scroll-transition.js:178-198 | removes doms [start, end] inclusive and never shortens the division list, as in the module version |
| PageScript.Reflected | script.js:101-106 | mirroring happens exactly in landscape and when the index parity matches isDecreaseToEvenNumber; never in portrait |
| PageScript.Ramp | script.js:93-96 | the interval times twice the fragment is the distance from fragment_prev, and it is negative exactly before fragment_prev |
| PageScript.FragmentInterval | script.js:83-109 | 0 for a fragment <= 0 or a rate before fragment_prev; otherwise a non-negative ramp with interval·2·fragment = rate − fragment_prev, or maxValue less that ramp when mirrored |
| PageScript.FragmentIntervalOverFragment | script.js:93-106 | across its own fragment the ramp stays in [0, 1/2], or in [maxValue − 1/2, maxValue] when mirrored |
| PageScript.MirroredIntervalGoesNegative | script.js:82-106 | the answer is not always positive, against the comment at line 82: a mirrored index past its fragment gives maxValue less a ramp above maxValue, here 1 - 12.5 |
| PageScript.FragmentIntervalMonotone | script.js:91-106 | unmirrored, the interval never decreases as the rate grows; mirrored, it never increases inside the fragment |
| PageScript.MiddleScrollYPercentage | script.js:122-130 | in [0, 1]; 0 below 0.8, 1 from 0.9 on, and ten times (s − 0.8) between |
| PageScript.MiddleScrollYPercentageMonotone | script.js:124-130 | the ladder never decreases as s grows |

## Left out

- Event wiring and the DOM:
  - `addEventListener`, the reads of `window` and `document`, and the style writes themselves;
  - `updateOrientation` (modules/scroll-transition.js:236-238 and scroll-transition.js:257-259), which reads the viewport size and sets `isLandscape`, which nothing in the modelled core reads;
  - in script.js, everything except `getFragmentInterval` and the ladder.
- The value a write stores: pixel writes store the peak value times the number scraped from the current style, plus 'px'. The plan records the write, not this value.
- TransitionModule.Division.constructor: takes all six arguments, so the default parameters of the `Division` constructor (modules/scroll-transition.js:15-22, scroll-transition.js:13-20) are not modelled; every modelled caller passes all six.
- The root file's `startEvent` (scroll-transition.js:205-254): it calls bare `updateOrientation()` and `getPeakValley()`, which do not resolve. Only its `switch` is modelled, as `TransitionRoot.StyleKeyOf`.
- IEEE floating point: rounding, Infinity, and NaN other than the divisions by a zero or `undefined` fragment in `getPeakValley`. Numbers are Dafny reals.
- Number-to-string formatting (`toString`, template strings, the 'px' suffix): `TransitionRoot.Output.Text(n)` stands for the string of n, and `getFragmentInterval`'s string is read back as its number.
- Aliasing of arrays passed in:
  - the `Division` constructor keeps the caller's two-member `domsInterval` array object, and the caller's `localFragments` and `styleFlags` arrays (modules/scroll-transition.js:28-30, scroll-transition.js:26-28), by reference; the model keeps their contents, so a later change the caller makes to one of those arrays does not reach the registered division;
  - the registry constructor keeps the caller's `divisions` array object, onto which `add` then pushes the new division in place (modules/scroll-transition.js:133, scroll-transition.js:166); the model keeps a sequence and reassigns it. The caller's `doms` array is never changed, because `add` rebuilds `this.doms` with `concat`.
- JavaScript duck typing:
  - an object other than a division whose `isDivision` is truthy, passed to `drop`;
  - truthy values of an unexpected type passed to `add` (a string as `globalFragment`, say);
  - `null` passed positionally to the root `add` where the model only has "left out".
- TransitionModule.ScrollTransition.Add: takes an `AddParam` value, so the TypeError that `add()` with no argument throws when it reads `param.doms` (modules/scroll-transition.js:98) is not modelled. Nor is the writing of each missing parameter's default into the caller's `param` object (modules/scroll-transition.js:98-114), which happens before the doms check and so also on a call that is then rejected: the model reads the defaults without changing the argument.
- TransitionRoot.ScrollTransition.Add: takes its doms as a sequence, so the source's acceptance of a non-array `doms` (whose `length` is then `undefined`) is not modelled.
- MiniTools.KeepNumberOfArrayMember: the `type` switch is reduced to the element pushed (`filler`).
- MiniTools.IsNumber: modelled on single characters, the only way `filterNumberFromString` calls it; `parseInt` of a longer string is not modelled.
- Waveform.Trig: `Math.sin` and `Math.cos` are any functions the caller supplies; only their range matters to the contracts.
- TransitionModule.DropCorrected: like the source, it does not shift the intervals of the divisions after the dropped one.

## Findings

| source | as written | input that shows it | evidently intended | confidence | as-written member | corrected member |
|---|---|---|---|---|---|---|
| modules/scroll-transition.js:149-151 (also scroll-transition.js:182-184) | `this.doms.slice(division.domsInterval[1] + 1)` keeps the doms from end + 1 on, so dom `end` is removed too | add doms [10, 20] (interval [0, 2]), add [30], drop the first division: doms become [] | drop removes exactly the division's doms [start, end), leaving [30] | high; not executed | TransitionModule.AddThenDropLosesNext | TransitionModule.AddThenDropCorrected |
| modules/scroll-transition.js:157-159 (also scroll-transition.js:190-192) | `this.divisions[i].slice(0, i)` calls `slice` on the Division object, which has none, so drop throws a TypeError once it finds the division, and the division stays registered | the same calls: the first division is still in `divisions` after drop, and drop throws | `this.divisions = this.divisions.slice(0, i).concat(this.divisions.slice(i + 1))`, which unregisters the division | high; not executed | TransitionModule.AddTwoDropFirst | TransitionModule.AddTwoDropFirstCorrected |
