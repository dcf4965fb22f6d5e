# Advanced animation exporter: a verified model of the Java code generator

The Blockbench plugin `advanced_animation_exporter` turns the animations of a project into one
Java class. The class holds one `AdvancedAnimationDefinition` builder chain per selected
animation:

- each bone animator of the animation adds one `.addAnimation(...)` channel for each non-empty
  keyframe list (rotation, position, scale);
- each keyframe becomes a `new AdvancedKeyframe(...)` whose x, y and z are Molang expressions
  rewritten into Java lambdas.

This project models the generator, the part of the plugin that builds that text, and proves
what it produces. It has five modules:

- `Strings`: occurrence of a pattern; the left-to-right, non-overlapping `String.replaceAll`;
  ASCII `toUpperCase`.
- `Expressions`: `fixValues`. It is an imperative scanner (`FixValues`, with its inner query
  loop `ReadQuery`) proved equal to the function `FixedValue`. The proofs are about
  `FixedValue`.
  - Every `query.<ident>` becomes `modifiers.get("<ident>") `. The one character that ends the
    identifier is consumed by the loop's own `i++` and never copied. A query that runs to the
    end of the input is left without its closing `")`.
  - An empty result or `"\n"` becomes `0`.
  - Every `Math` becomes `Mth`.
- `Naming`: `createFileName`, as the imperative loop `CreateFileName`, proved equal to
  `FileName`. `FileNameIsPascalCase` proves `FileName` equal to an independent one-pass rule.
- `Keyframes`: the keyframe record, and the ordering `Array.prototype.sort` gives it with the
  comparator `a.time - b.time`.
  - The sort is a stable insertion sort on an array, sorting in place (`SortInPlace`). It is
    proved equal to the function `SortByTime`.
  - `SortByTime` is proved to be a stable sort. It is also proved to be the only one
    (`StableSortUnique`). So any stable sort, the ECMAScript one included, gives the same
    order.
- `Exporter`: `createKeyframe`, `createTarget` and `createFileText`.
  - `createTarget` and `createFileText` are modelled as the source's loops (`CreateTarget`,
    `CreateFileText`) and proved equal to the functions `TargetText` and `FileText`.
  - `createKeyframe` is a single expression, so its model is the function `CreateKeyframe`.
  - The properties of the generated text are proved as lemmas about these functions.

What the host provides becomes a parameter:

- the project name and the list of animations chosen for export;
- `num: real -> string`, for the way JavaScript renders a number before the appended `F`
  (the keyframe time, line 145; the animation length, line 96).

Keyframe times and animation lengths are `real`. The sign of `a.time - b.time` is therefore
the exact order of the two times. An animator is a `Bone` with its three keyframe lists, or
`Other`, in place of the `instanceof BoneAnimator` test. A keyframe carries the x, y and z of
its first data point, already converted with `toString`, and its own interpolation mode, which
the generator ignores. Channels are values (`seq`): `CreateTarget` copies one into a fresh
array and sorts that array, so the caller's list is left as it was.

The query rewriting has two quirks, both of them in the code of `fixValues` (lines 154-168).
The closing `") ` is written only when some character ends the identifier: for
`query.anim_time` at the end of an expression the result is `modifiers.get("anim_time` and
nothing else. Inside an expression, the character after the name is not copied. The inner loop
writes `") ` in its place, and the outer loop's `i++` then steps over it. The model keeps both
quirks (`QueryRunToEnd`, `QueryRunEndedBy`, `FixedValueOfTrailingQuery`).

## Model

| member | source | states |
|---|---|---|
| Strings.UpperChar | plugins/advanced_animation_exporter/advanced_animation_exporter.js:192 | on one character, `toUpperCase` leaves no lower-case letter, so a second call changes nothing; letters stay letters; it makes an underscore only from an underscore, which is why `createFileName` can look for `_` in its own output |
| Strings.UpperString | plugins/advanced_animation_exporter/advanced_animation_exporter.js:96 | the upper-cased animation name is as long as the name, has no lower-case letter, and has its underscores exactly where the name has them |
| Strings.UpperStringIdempotent | plugins/advanced_animation_exporter/advanced_animation_exporter.js:96 | upper-casing an already upper-cased name changes nothing |
| Strings.ReplaceAll | plugins/advanced_animation_exporter/advanced_animation_exporter.js:180 | `replaceAll` with a replacement no longer than the pattern never lengthens the string, and with a non-empty replacement never empties a non-empty string |
| Strings.ReplaceAllAfterPrefix | plugins/advanced_animation_exporter/advanced_animation_exporter.js:180 | text before the first possible start of the pattern is copied through, and replacing goes on after it |
| Strings.ReplaceAllWithoutMatch | plugins/advanced_animation_exporter/advanced_animation_exporter.js:180 | `replaceAll` leaves a string in which the pattern does not occur unchanged |
| Strings.ReplaceAllDeletesChar | plugins/advanced_animation_exporter/advanced_animation_exporter.js:199 | deleting every `_`: none is left, every other character keeps its count, and the length drops by the number of underscores |
| Expressions.IdentLength | plugins/advanced_animation_exporter/advanced_animation_exporter.js:158-165 | the identifier run after `query.` stops at the end of the input or at a character outside `[a-zA-Z_]` |
| Expressions.IdentLengthIsRun | plugins/advanced_animation_exporter/advanced_animation_exporter.js:159-161 | every character counted into `queryLength` is a letter or `_` |
| Expressions.IdentLengthUnique | plugins/advanced_animation_exporter/advanced_animation_exporter.js:158-165 | any run of identifier characters that ends at the end or at a non-identifier character is the one the inner loop measures |
| Expressions.StartsWithQueryAt | plugins/advanced_animation_exporter/advanced_animation_exporter.js:154 | the token test of the scan holds exactly when `query.` occurs at that index; near the end, where fewer than 6 characters are left (and `substring` returns a shorter string), it is false |
| Expressions.QueryTokenThen | plugins/advanced_animation_exporter/advanced_animation_exporter.js:154-155 | a step of the proofs: a text that starts with `query.` passes the token test, and what follows the 6 characters of the token is the rest of the text |
| Expressions.QueryLookupOfRun | plugins/advanced_animation_exporter/advanced_animation_exporter.js:155-166 | a step of the proofs: an identifier run that reaches the end is appended whole after `modifiers.get("`, with no closing `") `, and nothing is left to scan after it |
| Expressions.ReadQuery | plugins/advanced_animation_exporter/advanced_animation_exporter.js:155-166 | the inner loop returns the identifier run's lookup text, closed with `") ` only when a character ends the run, and a `queryLength` of 6 plus the run's length |
| Expressions.FixValues | plugins/advanced_animation_exporter/advanced_animation_exporter.js:149-183 | the scanning loop, with `i += queryLength` followed by the loop's `i++`, then the blank-to-`0` step and `replaceAll("Math", "Mth")`, returns `FixedValue(value)` |
| Expressions.ScanFromRewrites | plugins/advanced_animation_exporter/advanced_animation_exporter.js:153-172 | the loop, from any index and written text, appends exactly the query rewriting of the rest of the input |
| Expressions.ReplaceMathLeavesNoMath | plugins/advanced_animation_exporter/advanced_animation_exporter.js:180 | no `Math` remains after `Math` to `Mth` replacement, including across the edge of a written `Mth` |
| Expressions.FixedValueNonEmptyWithoutMath | plugins/advanced_animation_exporter/advanced_animation_exporter.js:175-180 | `fixValues` never returns an empty string, and its result never contains `Math` |
| Expressions.FixedValueOfBlank | plugins/advanced_animation_exporter/advanced_animation_exporter.js:175-177 | the empty input and the input `"\n"` both yield `0` |
| Expressions.PlainPrefix | plugins/advanced_animation_exporter/advanced_animation_exporter.js:153-171 | text in which no `query.` starts is copied through one character at a time |
| Expressions.RewriteWithoutQuery | plugins/advanced_animation_exporter/advanced_animation_exporter.js:153-172 | an input without `query.` comes out of the scan unchanged |
| Expressions.FixedValuePassthrough | plugins/advanced_animation_exporter/advanced_animation_exporter.js:153-180 | an input with neither `query.` nor `Math`, and neither empty nor `"\n"`, is returned unchanged |
| Expressions.QueryRunToEnd | plugins/advanced_animation_exporter/advanced_animation_exporter.js:154-168 | `query.` followed by an identifier run R at the end of the input becomes `modifiers.get("R`, with nothing appended after it |
| Expressions.QueryRunEndedBy | plugins/advanced_animation_exporter/advanced_animation_exporter.js:154-168 | `query.` R c t, with c not an identifier character, becomes `modifiers.get("R") ` followed by the rewriting of t: c is consumed and scanning resumes after it |
| Expressions.FixedValueOfTrailingQuery | plugins/advanced_animation_exporter/advanced_animation_exporter.js:154-180 | through the whole of `fixValues`, `query.` R (R an identifier run) yields `modifiers.get("` followed by R with its `Math` renamed to `Mth`, and no closing `")`; if R has no `M`, R itself |
| Naming.CreateFileName | plugins/advanced_animation_exporter/advanced_animation_exporter.js:186-204 | the loop, which looks back at its own output to find an underscore, followed by underscore removal and the suffix, returns `FileName(value)` |
| Naming.FileNameShape | plugins/advanced_animation_exporter/advanced_animation_exporter.js:199-201 | the name ends with `AdvancedAnimations`, has no `_` before it, and its length is \|value\| minus the number of `_` plus 18 |
| Naming.CapitalizedThenStripped | plugins/advanced_animation_exporter/advanced_animation_exporter.js:190-199 | upper-casing after underscores and then deleting them equals the one-pass rule: drop `_`, upper-case the first character of each part |
| Naming.FileNameIsPascalCase | plugins/advanced_animation_exporter/advanced_animation_exporter.js:186-204 | `createFileName` is the one-pass rule followed by `AdvancedAnimations` |
| Naming.FileNameOfPlainName | plugins/advanced_animation_exporter/advanced_animation_exporter.js:186-204 | a name with no `_` and no lower-case first letter gets only the suffix |
| Naming.FileNameOfEmpty | plugins/advanced_animation_exporter/advanced_animation_exporter.js:186-204 | `""` maps to `AdvancedAnimations` |
| Naming.FileNameOfMyMod | plugins/advanced_animation_exporter/advanced_animation_exporter.js:186-204 | `my_mod` maps to `MyModAdvancedAnimations` |
| Keyframes.InsertPosition | plugins/advanced_animation_exporter/advanced_animation_exporter.js:127 | insertion puts a keyframe right after the last keyframe not later than it, which keeps equal times in arrival order |
| Keyframes.InsertInPlace | plugins/advanced_animation_exporter/advanced_animation_exporter.js:127 | one in-place insertion step shifts the later keyframes right and leaves the array's sorted prefix equal to `Insert` of the old prefix, with the rest of the array unchanged |
| Keyframes.SortInPlace | plugins/advanced_animation_exporter/advanced_animation_exporter.js:127 | sorting the local array in place leaves it equal to `SortByTime` of its old contents |
| Keyframes.SortByTimeIsStableSort | plugins/advanced_animation_exporter/advanced_animation_exporter.js:127 | the sort result has times in non-decreasing order, keeps the keyframes of each time in input order, and is a permutation of the input |
| Keyframes.StableSortUnique | plugins/advanced_animation_exporter/advanced_animation_exporter.js:127 | two sequences sorted by time that agree on the order within each time are equal |
| Keyframes.StableSortIsSortByTime | plugins/advanced_animation_exporter/advanced_animation_exporter.js:127 | any stable sort of the channel by time, the comparator `a.time - b.time` under a stable `Array.prototype.sort` included, equals `SortByTime` |
| Exporter.CreateKeyframe | plugins/advanced_animation_exporter/advanced_animation_exporter.js:144-146 | a keyframe fragment starts with `\nnew AdvancedKeyframe(`, the rendered time and `F, new AdvancedAnimationInstance(`, and ends with `AdvancedAnimationChannel.Interpolations.CATMULLROM),` |
| Exporter.KeyframeEmbedsValues | plugins/advanced_animation_exporter/advanced_animation_exporter.js:145 | the fragment contains `fixValues(x)`, `fixValues(y)` and `fixValues(z)`, in that order and without overlap |
| Exporter.KeyframeIgnoresInterpolation | plugins/advanced_animation_exporter/advanced_animation_exporter.js:131-135 | a keyframe's own interpolation mode does not change its fragment |
| Exporter.JoinAppend | plugins/advanced_animation_exporter/advanced_animation_exporter.js:95-109 | appending one piece of text per element, as every loop of the generator does, maps the concatenation of two lists to the concatenation of their texts |
| Exporter.JoinStep | plugins/advanced_animation_exporter/advanced_animation_exporter.js:130-136 | a step of the loop proofs: the text of the first i + 1 elements is the text of the first i followed by that of element i |
| Exporter.TargetTextShape | plugins/advanced_animation_exporter/advanced_animation_exporter.js:117-141 | `createTarget` returns `""` exactly when the channel is empty; otherwise it starts with the `.addAnimation("<bone>", ... Targets.<name>, new AdvancedKeyframe[] {` header and ends with `\n}))` |
| Exporter.TargetTextIsStablySorted | plugins/advanced_animation_exporter/advanced_animation_exporter.js:118-138 | for any stable sort of a non-empty channel, the channel text is the header, the fragments of the sorted keyframes, and `\n}))`; the sorted keyframes are a permutation of the input |
| Exporter.CreateTarget | plugins/advanced_animation_exporter/advanced_animation_exporter.js:116-142 | pushing into a fresh array, sorting it in place and appending one fragment per keyframe returns `TargetText` |
| Exporter.AnimatorTextEmpty | plugins/advanced_animation_exporter/advanced_animation_exporter.js:101-106 | an animator adds no text exactly when it is not a bone animator or its rotation, position and scale channels are all empty |
| Exporter.Bones | plugins/advanced_animation_exporter/advanced_animation_exporter.js:101 | the animators kept by the `instanceof BoneAnimator` test are exactly the bone animators of the list; a list of bone animators only is kept whole |
| Exporter.BonesAppend | plugins/advanced_animation_exporter/advanced_animation_exporter.js:99-101 | the test filters in order: the bone animators of two lists one after the other are those of the first followed by those of the second |
| Exporter.OtherAnimatorsSkipped | plugins/advanced_animation_exporter/advanced_animation_exporter.js:99-107 | animators that are not bone animators contribute nothing: the text of the animators equals the text of their bone animators alone, in order |
| Exporter.AnimationBlockShape | plugins/advanced_animation_exporter/advanced_animation_exporter.js:96-108 | a block opens with the upper-cased name and `withLength(<length>F)`, closes with `\n.build();`, and holds the animators' text in input order, split anywhere |
| Exporter.FileTextShape | plugins/advanced_animation_exporter/advanced_animation_exporter.js:91-114 | the file starts with `public class <createFileName(projectName)> {` and ends with `\n}` |
| Exporter.ClassNameEndsWithSuffix | plugins/advanced_animation_exporter/advanced_animation_exporter.js:92 | the class declaration starts with `public class ` and names a class ending with `AdvancedAnimations` |
| Exporter.FileTextOfNoAnimations | plugins/advanced_animation_exporter/advanced_animation_exporter.js:91-114 | exporting no animations gives the class declaration followed by `\n}` |
| Exporter.FileTextAppend | plugins/advanced_animation_exporter/advanced_animation_exporter.js:95-109 | each selected animation contributes its own block, in input order |
| Exporter.CreateFileText | plugins/advanced_animation_exporter/advanced_animation_exporter.js:91-114 | the nested loops over animations and animators, skipping non-bone animators and appending ROTATION, POSITION and SCALE channels, return `FileText` |

## Left out

- Plugin registration, the menu action and the toggling of the export format (lines 6-44): host-application UI.
- The animation-selection dialog and its form, the select-all buttons and the `Animation.all.find` lookup (lines 47-88): UI plumbing. Only its result, the list of animations to export, is modelled, as a parameter.
- `Blockbench.export` (lines 70-75): saving the file is I/O.
- The globals `Project.name` and `animationsToExport` are parameters of `CreateFileText`.
- JavaScript's number-to-string conversion of times and lengths is the parameter `num`, left uninterpreted.
- Floating-point arithmetic: times are `real`. The comparator `a.time - b.time` is read as the exact order of two times, which it is for finite, non-NaN doubles.
- `toUpperCase` and the `/[a-zA-Z]/` test are modelled on ASCII only. Full Unicode case mapping, which can change a string's length, is not modelled.
- `Strings.UpperString`: only the ASCII part of `toUpperCase` is modelled, for the same reason.
- Keyframe data points other than the first, and the `toString` conversion of their x, y and z: a keyframe carries the three strings directly.
- The `for...in` iteration over `animation.animators` is modelled as a sequence in the order the loop visits it.
- `Array.prototype.sort` is library code. It is modelled by an in-place stable insertion sort; `StableSortUnique` shows that every stable sort by time gives the same result.
- Strings are sequences of Unicode code points; JavaScript indexes strings by UTF-16 code units. `Expressions.ReadQuery`, `Expressions.FixValues` and `Expressions.QueryRunEndedBy` match `fixValues` only on input whose characters all lie in the 16-bit range. A character outside it is one character here, but JavaScript sees two halves of a surrogate pair, and when such a character ends a query identifier, the scan drops its first half and copies the second.
- `Expressions.ReadQuery`: the inner `for (i2 ...)` loop of `fixValues` is a method of its own, called from the outer loop, rather than inline code.
- `src/azurelib_utils/settings.js` is not part of this model: it holds constant tables and a handler that only calls host globals.
