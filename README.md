# Workout generator form: a Dafny model

The page is a form with three columns of text inputs, named `duration`,
`equipment` and `movement`, plus a "generate" button and a `#result` element.
The script `index.ts` keeps the form tidy on every key press and builds a
random workout sentence when the button is clicked:

- `setInputCount` groups the inputs by `name`. In every group it removes all
  blank inputs but the first ("vestigials"). When the group has no blank at
  all, it adds a cleared, non-required clone of the group's last input right
  after it. Finally it marks the group's first input `required`. Each column
  so ends with N filled inputs and exactly one blank.
- `validateForm` folds the inputs into a record from name to "has an answer",
  seeded with the three column names. The answer test uses the trimmed value.
  The button is enabled exactly when every entry of that record is true.
- `handleForm` runs both on the form's inputs, once at page load and on every
  `keyup`.
- `generateWorkout` groups the non-empty values by name, picks one value per
  group at a random index, and writes
  `Your workout: <equipment> <movement> for <duration> minutes` into `#result`.

The model has six modules:

- `Inputs` (`inputs.dfy`) holds the input record and the grouping by name
  that every routine builds with a `reduce`.
- `InputCount` (`input_count.dfy`) gives the meaning of `setInputCount` as
  functions: the visit of one group (`GroupStep`), folded over the groups in
  the order the record's keys are created. Lemmas show that each visit
  touches its own group only, and that every group ends settled. They also
  show that the filled inputs survive unchanged and in order, and that a
  second run changes nothing.
- `Arrangement` (`arrangement.dfy`) places every input of the whole form.
  It describes the result of `setInputCount` input by input, in the
  original document order: a vestigial becomes nothing, any other input
  stays (marked `required` when it is its group's first), and the last
  input of a group without a blank is followed by its clone. It proves that
  the visits leave exactly this form.
- `Validation` (`validation.dfy`) models the column-state fold with
  ECMAScript `trim`. It characterises when the button is enabled, and proves
  the fold monotone and independent of input order.
- `Workout` (`workout.dfy`) models the grouping of the non-empty values, the
  choice of one value per group by index, and the sentence template.
- `Script` (`script.dfy`) has the class `Page`, holding the inputs in
  document order, the button's `disabled` state and the result text. Its
  `SetInputCount` works step by step with the same DOM calls as the script:
  `remove`, `after` and `setAttribute('required')`. Each of these is stated
  through the matching function of `InputCount` (`Without`, `InsertAfter`,
  `MarkRequired`). The method is proved to end in the state
  `InputCount.SetInputCount` describes. `HandleForm` leaves the button in
  agreement with the page. `GenerateWorkout` writes the sentence.

A blank input is one whose value is the empty string. `setInputCount` and
`generateWorkout` test `!input.value`, so a whitespace-only value counts as
filled there. `validateForm` trims the value first, so such a value is no
answer to it. The model keeps both notions: `IsBlank` and `HasText`.

## Model

| member | source | states |
|---|---|---|
| Inputs.Group | index.ts:35-42 | the group of `n` holds only inputs named `n` and is no longer than the form |
| Inputs.GroupMembers | index.ts:35-42 | an input is in group `n` iff it is in the form and is named `n` |
| Inputs.Keys | index.ts:35-45 | the record's keys are distinct, and a name is a key iff it was a key already or some input carries it |
| Inputs.Blanks | index.ts:48 | the filter keeps only inputs whose value is the empty string |
| Inputs.FilledMembers | index.ts:98 | an input is kept by the `!!value` filter iff it is in the form and its value is not empty |
| Inputs.GroupFilled | index.ts:96-105 | filtering the filled inputs and then grouping gives the filled inputs of each group |
| InputCount.FirstVestigial | index.ts:48-50 | the next vestigial to remove is an input of the group with an empty value |
| InputCount.FirstIndex | index.ts:65 | `inputs[0]` is the first input of the form with that name |
| InputCount.LastIndex | index.ts:54 | `inputs[inputs.length - 1]` is the last input of the form with that name |
| InputCount.FirstBlank | index.ts:48 | `empty` is the group's first blank: every input before it holds a value |
| InputCount.DropOneMore | index.ts:50 | removing the first remaining vestigial, one at a time, ends with all vestigials removed in document order |
| InputCount.VestigialsCount | index.ts:48 | there are as many vestigials as blanks in the group minus one, and none when the group has no blank |
| InputCount.Clone | index.ts:55-59 | definition: the clone keeps the name, its value is set to `''` and `required` is removed |
| InputCount.Without | index.ts:50 | `remove()` takes out exactly one input, so the form is one shorter |
| InputCount.InsertAfter | index.ts:60 | `after(x)` makes the form one longer, with `x` right after the given position |
| InputCount.MarkRequired | index.ts:65 | `setAttribute('required', 'true')` keeps the form's length and leaves the given input required |
| InputCount.RemoveVestigials | index.ts:47-50 | definition: every blank of the group but the first is removed; its meaning is given by `DropOneMore` and `Arrangement.DropLayout` |
| InputCount.AddBlankAfterLast | index.ts:53-61 | definition: the clone of the group's last input is inserted right after it; its meaning is given by `Arrangement.AddLayout` |
| InputCount.MarkFirstRequired | index.ts:65 | definition: the group's first input is marked required; its meaning is given by `Arrangement.MarkLayout` |
| InputCount.GroupStep | index.ts:46-66 | definition: one pass of the `forEach`, the three parts above in the source's order |
| InputCount.SetInputCount | index.ts:34-67 | definition: the passes over the record's keys in order; its meaning is given by `Arrangement.SetInputCountLayout` |
| InputCount.GroupShape | index.ts:46-66 | a visited group is its first blank kept in place with every later blank gone, or, without a blank, the group with a cleared clone of its last input appended; its first input is required either way |
| InputCount.NextGroup | index.ts:44-46 | the group visited at each step of the loop still holds the inputs collected before the loop, and the visit is one more step of the fold |
| InputCount.GroupOfStep | index.ts:46-66 | the visit of group `n` changes group `n` as the visit of that group alone would, and no other group |
| InputCount.GroupOfApply | index.ts:44-66 | after visiting distinct groups, each visited group is its own visit's result and every other group is unchanged |
| InputCount.GroupSettles | index.ts:33-65 | after its visit a group has exactly one blank and N filled inputs + 1, with its first input required; the filled inputs and their values are kept in order; the kept blank is the group's first blank in its place; a group without a blank gets a clone of its last input (empty, not required) appended |
| InputCount.SetInputCountGroups | index.ts:33-67 | after `setInputCount` every group is its own visit's result, no group appears or disappears, each group is settled with N + 1 inputs, and its filled values are unchanged |
| InputCount.SetInputCountIdempotent | index.ts:34-67 | running `setInputCount` on its own result changes nothing |
| InputCount.SetInputCountKeepsFilled | index.ts:47-65 | the filled inputs keep their names, values and order across the whole form; only blanks come and go |
| Arrangement.SetInputCountLayout | index.ts:34-67 | the form after `setInputCount` is, input by input in the original order: nothing for a vestigial, otherwise the input (required if first of its group), followed by its clone when it is the last input of a group without a blank |
| Arrangement.StepLayout | index.ts:46-66 | one visit applies its removal, insertion and marking to its own group's inputs where they stand in the whole form |
| Arrangement.DropLayout | index.ts:47-50 | removing a group's vestigials takes out exactly its blanks after the first, and every other input keeps its place |
| Arrangement.DropAllRemoves | index.ts:48-50 | removing the collected vestigials one by one is the same as filtering out every blank of the group after its first |
| Arrangement.AddLayout | index.ts:53-61 | for a group without a blank, the clone lands right after the group's last input, and nothing else moves |
| Arrangement.AddAfterIs | index.ts:54-60 | inserting after the last input found by position is the same as inserting after the input of the group that no other input of the group follows |
| Arrangement.MarkLayout | index.ts:65 | marking a group changes only its first input in the whole form |
| Arrangement.MarkFirstIs | index.ts:65 | marking the input at the group's first position is the same as marking the first input of that name met in document order |
| Arrangement.CloneFollowsLast | index.ts:53-61 | in the final form, a group that had no blank has the clone of its last original input right after that input, and no input of the group after the clone |
| Arrangement.ClonesAside | index.ts:47-65 | taking the added blanks out of the final form leaves the original form with the vestigials removed and each group's first input marked, every kept input in its original relative place |
| Validation.TrimStart | index.ts:14 | the result is a suffix of the value, starts with a non-space, and everything cut off is whitespace |
| Validation.TrimEnd | index.ts:14 | the result is a prefix of the value, ends with a non-space, and everything cut off is whitespace |
| Validation.Trim | index.ts:14 | definition: `trim()` as `TrimEnd` of `TrimStart`; its meaning is given by `TrimEmpty` |
| Validation.HasText | index.ts:14 | definition: `!!input.value?.trim()`, a non-empty trimmed value |
| Validation.Fold | index.ts:10-21 | definition: the `reduce` step `columns[name] \|\| !!value.trim()` over the inputs; its meaning is given by `ColumnStateMeaning` |
| Validation.ColumnState | index.ts:10-21 | definition: the fold seeded with the three column names set to false |
| Validation.HasRequiredColumns | index.ts:24-26 | definition: every value of the column state is true; its meaning is given by `EnabledIff` |
| Validation.TrimEmpty | index.ts:14 | `trim()` gives the empty string iff every character is ECMAScript whitespace or a line terminator |
| Validation.TextIsNotBlank | index.ts:14 | a value with text after trimming is not the empty string |
| Validation.ColumnStateMeaning | index.ts:10-21 | the record's keys are the three seeded names plus every name present, and an entry is true iff some input of that name has text |
| Validation.EnabledIff | index.ts:24-30 | the button is enabled iff `duration`, `equipment` and `movement` each have an answer and every name present has one |
| Validation.EnabledAnswers | index.ts:24-26 | an enabled button implies that the three columns and every name present are answered |
| Validation.AnswersEnable | index.ts:24-26 | answers in the three columns and in every name present enable the button |
| Validation.MissingSeededDisables | index.ts:16-20 | a form with no input for one of the three seeded names keeps the button disabled |
| Validation.ColumnStateMonotone | index.ts:14 | once an entry is true, more inputs never make it false again |
| Validation.ColumnStateOrderFree | index.ts:10-21 | the column state depends only on the multiset of inputs, not on their order |
| Validation.AnsweredByMembers | index.ts:14 | an answer stays an answer in any form that contains the same inputs |
| Validation.AnsweredByValues | index.ts:14 | a name is answered iff one of its group's filled values has text |
| Validation.ValidationIgnoresSetInputCount | index.ts:70-77 | validating before or after `setInputCount` gives the same column state and the same button state |
| Validation.WhitespaceGroupStaysDisabled | index.ts:14 | a group whose values are all whitespace-only gets one more row from `setInputCount`, yet its entry stays false and the button disabled |
| Workout.Collect | index.ts:99-105 | definition: the grouping `reduce`, appending each value to `columns[name] \|\| []`; its meaning is given by `CollectMeaning` |
| Workout.Choices | index.ts:96-105 | definition: the grouping of the inputs with a non-empty value; its meaning is given by `ChoicesMeaning` |
| Workout.Sentence | index.ts:121 | definition: the template `Your workout: <equipment> <movement> for <duration> minutes` |
| Workout.GenerateWorkout | index.ts:107-121 | definition: the sentence for the values chosen at `picks`; its meaning is given by `WorkoutUsesOfferedValues` |
| Workout.CollectMeaning | index.ts:99-105 | the grouping `reduce` adds exactly the present names, and appends each group's values in document order to what the record held (`columns[name] \|\| []`) |
| Workout.ChoicesMeaning | index.ts:96-105 | a name has choices iff its group has a filled input, and its choices are those values in document order |
| Workout.Choose | index.ts:107-119 | the chosen record has the same names as the grouped one, and each chosen value is one of its group's choices |
| Workout.ChoicesAreOffered | index.ts:96-119 | `v` is a choice of group `n` iff `v` is non-empty and is the value of some input named `n` |
| Workout.WorkoutUsesOfferedValues | index.ts:107-121 | the result is the template filled with an equipment, a movement and a duration, each a non-empty value of an input of that name |
| Workout.EnabledCanRender | index.ts:24-30 | while the button is enabled, all three groups have choices, so no part of the sentence is missing |
| Workout.ChoicesIgnoreSetInputCount | index.ts:34-67 | `setInputCount` leaves the workout choices unchanged |
| Script.Page.Load | index.ts:91 | on page load the form is the result of `setInputCount`, the button state matches the form, and `#result` keeps the text the document starts with |
| Script.Page.Remove | index.ts:50 | `remove()` leaves the form `InputCount.Without` describes and changes nothing else |
| Script.Page.After | index.ts:60 | `after(x)` leaves the form `InputCount.InsertAfter` describes and changes nothing else |
| Script.Page.SetRequired | index.ts:65 | `setAttribute('required', 'true')` leaves the form `InputCount.MarkRequired` describes and changes nothing else |
| Script.Page.SetInputCount | index.ts:34-67 | the in-place removals, insertion and `required` marking leave exactly the form `InputCount.SetInputCount` describes |
| Script.Page.RemoveEach | index.ts:48-50 | detaching the first remaining vestigial of the group, once per vestigial, leaves the form with every vestigial of that group removed and nothing else changed |
| Script.Page.VisitGroup | index.ts:46-66 | one pass of the `forEach` leaves the form as `InputCount.GroupStep` describes |
| Script.Page.ValidateForm | index.ts:9-31 | the button is disabled iff the given inputs lack a required column |
| Script.Page.HandleForm | index.ts:70-77 | the form is set to `setInputCount`'s result, and the button agrees with the form before and after |
| Script.Page.GenerateWorkout | index.ts:94-122 | a click on the enabled button writes the sentence for the drawn indices, and all three groups have choices |

## Left out

- The DOM queries and event wiring (`querySelector`, `addEventListener`, `closest`, `Array.from(form.elements)`) are not modelled. The form is given as the sequence of its inputs in document order.
- `Math.random` and `Math.round` are not modelled. The drawn index of each group is a parameter `picks`, bounded by the group's size, which is the range `Math.round(Math.random() * (length - 1))` covers.
- The HTML document is not part of this model. The text `#result` starts with is the parameter `shown` of `Script.Page.Load`, and `handleForm` leaves it as it is.
- `event.preventDefault()` has no counterpart: form submission is not modelled.
- The `instanceof HTMLInputElement` checks are not modelled: the inputs are the only elements considered. A clone is always an input element. The button inside `form.elements` is dropped by `generateWorkout`'s `!!value` filter because its value is empty.
- Of the cloned input only `name`, `value` and `required` are modelled. Other attributes (type, placeholder, class) are copied by `cloneNode` and play no part here.
- The attribute strings (`disabled="true"`, `required="true"`) become booleans.
- DOM identity is modelled by position. The script removes the vestigials it collected; the model removes, each time, the first remaining vestigial of the group, which is the same input (`InputCount.DropOneMore`). The first and last inputs of a group are found by position in the current document, which holds the same inputs as the collected group (`InputCount.GroupOfApply`).
- Group visiting order: the model visits the groups in the order their names first appear. JavaScript lists integer-like property names first. Each visit touches only its own group (`InputCount.GroupOfStep`), but that the order does not matter is not proved.
- Names that collide with `Object.prototype` members (such as `toString` or `__proto__`) behave differently in a JavaScript record. The model treats every name as an ordinary key.
- Script.Page.GenerateWorkout: requires the button to be enabled and to agree with the form. A click after the value changed without a `keyup` (a paste with the mouse), which can leave a column without choices and print `undefined`, is not modelled.
- Workout.GenerateWorkout: requires all three groups to have choices. The missing-group case, where the sentence shows `undefined`, is excluded.
- The user's typing between events is not modelled. The page changes only through the script's own operations.
