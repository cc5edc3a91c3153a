# Answer inclusion for common-settings exercises (open-ear)

This project is a Dafny model of the answer-inclusion logic shared by the
ear-training exercises of open-ear. Each exercise has a full answer list. The
list is either flat (a sequence of answers) or a layout (rows of cells, where a
cell may be an empty slot). The user's settings hold an `includedAnswers`
selection, and the answer list shown to the user is the full list projected
through that selection:

- A **flat list** is filtered. The included answers are kept in their original
  order, once per occurrence.
- A **layout** keeps its exact shape. A cell whose answer is truthy and
  included passes through unchanged. Every other cell keeps all its other
  fields and has its answer set to `null`.

Alongside the projection the model covers the settings form and the defaults.
The settings form has one `LIST_SELECT` control bound to the key
`includedAnswers` and labelled `Included Options`. Its options are the
available answers, each labelled with itself. By default every available
answer is included.

Files:

- `optional.dfy`: `Option`, standing for `T | null`.
- `subsequences.dfy`: order-preserving subsequences, and the fact that a
  subsequence never has more occurrences of any value than its source.
- `answer_layout.dfy`: answers, normalized layout cells, the two shapes of
  answer list, and the flattening of an answer list into its answers.
- `common_settings_exercise.dfy`: the operations of
  `BaseCommonSettingsExercise`, namely the projection, the settings
  descriptor, the default settings and the exercise as built.
- `common_settings_properties.dfy`: the lemmas relating these operations.

Modelling decisions:

- **Cells.** A layout cell is `Cell(answer: Option<string>, meta: M)`. The
  type parameter `M` stands for every non-answer field of a normalized cell.
  The cell normalization that `getAnswerList` applies first is not part of
  this model. The input layout is taken to be already normalized.
- **Flattening.** `Exercise.flatAnswerList` is not part of this model either.
  It is assumed to return a flat list unchanged and a layout's non-null cell
  answers in row-major order (`AnswerLayout.FlatAnswerList`). The assumption
  shapes every statement made through `FlatAnswerList`: the settings-form
  options, the defaults, and the "every offered answer is included" clauses
  of `ProjectAnswerList` and `GetAnswerList`. For layouts those two also state
  the membership fact directly over cells (`LayoutHas`), without the assumption.
- **Truthiness.** The layout test checks `answer && includedAnswers.includes(answer)`.
  For a string-or-null answer, truthy means "present and not the empty
  string", so `CommonSettingsExercise.Shown` requires `value != ""`. The flat
  filter has no such test. An included `""` therefore survives in a flat list
  but is nulled in a layout. `EmptyAnswerAsymmetry` states this asymmetry for
  all inputs, and `EmptyAnswerExample` gives a concrete instance.
- **Membership.** `Array.prototype.includes` on strings is plain equality,
  which is the `in` operator on `seq<string>`.
- **Construction.** The three class fields are initialised in the order
  full answer list, settings descriptor, settings. `NewExercise` builds the
  same record from an explicit full answer list.

## Model

| member | source | states |
|---|---|---|
| CommonSettingsExercise.FilterIncluded | src/app/exercise/exercises/utility/BaseCommonSettingsExercise.ts:22-24 | the filtered flat list is no longer than the full list; an answer occurs in it iff it occurs in the full list and in `includedAnswers`; with an empty selection it is empty |
| CommonSettingsExercise.FilterIncludedLoop | src/app/exercise/exercises/utility/BaseCommonSettingsExercise.ts:23 | the single left-to-right pass that appends each included answer computes exactly the filtered list |
| CommonSettingsProperties.FilterIsSubsequence | src/app/exercise/exercises/utility/BaseCommonSettingsExercise.ts:23 | the filtered list is an order-preserving subsequence of the full list |
| CommonSettingsProperties.FilterCounts | src/app/exercise/exercises/utility/BaseCommonSettingsExercise.ts:23 | every included answer occurs in the filtered list exactly as often as in the full list, and no excluded answer occurs in it |
| CommonSettingsProperties.FilterUnique | src/app/exercise/exercises/utility/BaseCommonSettingsExercise.ts:23 | any order-preserving selection from the full list that has those per-answer counts is the filtered list |
| CommonSettingsProperties.FilterCharacterisation | src/app/exercise/exercises/utility/BaseCommonSettingsExercise.ts:22-24 | a list is the filtered list iff it is a subsequence of the full list keeping every occurrence of the included answers and nothing else |
| CommonSettingsProperties.FilterAllIncluded | src/app/exercise/exercises/utility/BaseCommonSettingsExercise.ts:23 | when every answer of the list is included, the filter returns the list unchanged |
| CommonSettingsProperties.FilterIdempotent | src/app/exercise/exercises/utility/BaseCommonSettingsExercise.ts:22-24 | filtering a filtered list again with the same selection changes nothing |
| CommonSettingsExercise.MaskCell | src/app/exercise/exercises/utility/BaseCommonSettingsExercise.ts:33-36 | a masked cell keeps its non-answer fields; a truthy, included cell comes back unchanged; any other cell comes back with a null answer |
| CommonSettingsExercise.MaskLayout | src/app/exercise/exercises/utility/BaseCommonSettingsExercise.ts:26-37 | the masked layout has the same number of rows and the same number of cells per row; each cell keeps its non-answer fields and keeps its answer iff that answer is truthy and included, otherwise null |
| CommonSettingsProperties.MaskKeepsCell | src/app/exercise/exercises/utility/BaseCommonSettingsExercise.ts:33-36 | a masked cell equals its source cell iff the source cell was an empty slot or is truthy and included |
| CommonSettingsProperties.MaskIdempotent | src/app/exercise/exercises/utility/BaseCommonSettingsExercise.ts:32-37 | masking a masked layout again with the same selection changes nothing |
| CommonSettingsExercise.ProjectAnswerList | src/app/exercise/exercises/utility/BaseCommonSettingsExercise.ts:19-37 | the projection keeps the list's shape: flat stays flat and no longer, a layout keeps its row count and row lengths; every answer a cell of the projected layout carries, and every answer the projected list offers, is in `includedAnswers` |
| CommonSettingsExercise.GetAnswerList | src/app/exercise/exercises/utility/BaseCommonSettingsExercise.ts:19-20 | the presented list has the shape of the full list, and every answer presented to the user (in a layout: carried by any cell) belongs to the exercise's current `includedAnswers` setting |
| CommonSettingsProperties.ProjectIdempotent | src/app/exercise/exercises/utility/BaseCommonSettingsExercise.ts:19-37 | projecting an already projected answer list again with the same selection returns it unchanged, in both shapes |
| CommonSettingsProperties.EmptyAnswerAsymmetry | src/app/exercise/exercises/utility/BaseCommonSettingsExercise.ts:22-36 | for every flat list, layout and selection that includes `""`: the flat filter keeps every occurrence of `""`, and the layout mask nulls every cell whose answer is `""` |
| CommonSettingsProperties.EmptyAnswerExample | src/app/exercise/exercises/utility/BaseCommonSettingsExercise.ts:22-36 | concretely, `[""]` filtered by `[""]` is `[""]`, while a one-cell layout carrying `""` masked by `[""]` becomes that cell with a null answer and its other fields kept |
| CommonSettingsProperties.LayoutAgreesWithFlatOnNonEmpty | src/app/exercise/exercises/utility/BaseCommonSettingsExercise.ts:22-36 | for every non-empty answer, the layout test keeps a cell carrying it exactly when the flat filter keeps it; the two tests differ only on the empty string |
| CommonSettingsExercise.SettingsDescriptor | src/app/exercise/exercises/utility/BaseCommonSettingsExercise.ts:42-59 | the settings form is one entry: key `includedAnswers`, control type `LIST_SELECT`, label `Included Options`, and one option per available answer, in order, whose value and label are that answer |
| CommonSettingsExercise.IncludedAnswersOptions | src/app/exercise/exercises/utility/BaseCommonSettingsExercise.ts:71-73 | the form's options are the flat list itself, or for a layout exactly the answers some cell carries |
| CommonSettingsExercise.DefaultSelectedIncludedAnswers | src/app/exercise/exercises/utility/BaseCommonSettingsExercise.ts:67-69 | the default selection is the flat list itself, or for a layout exactly the answers some cell carries |
| CommonSettingsExercise.DefaultSettings | src/app/exercise/exercises/utility/BaseCommonSettingsExercise.ts:61-65 | the default `includedAnswers` is the same sequence the settings form offers as options, so for a layout it includes every answer some cell carries and nothing else |
| CommonSettingsExercise.NewExercise | src/app/exercise/exercises/utility/BaseCommonSettingsExercise.ts:15-17 | a built exercise keeps its full answer list, has a one-entry settings form, and its initial selection is, in order, exactly the option values of that form |
| CommonSettingsProperties.DescriptorOptionsAreDefaults | src/app/exercise/exercises/utility/BaseCommonSettingsExercise.ts:42-73 | the option values of the settings form are, in order, exactly the answers included by default |
| CommonSettingsProperties.NewFlatExerciseShowsAll | src/app/exercise/exercises/utility/BaseCommonSettingsExercise.ts:61-69 | a new exercise over a flat list, with default settings, presents the whole list |
| CommonSettingsProperties.NewLayoutExerciseShowsAll | src/app/exercise/exercises/utility/BaseCommonSettingsExercise.ts:61-69 | a new exercise over a layout, with default settings, presents each cell unchanged iff its answer is not the empty string |
| AnswerLayout.FlatAnswerList | src/app/exercise/exercises/utility/BaseCommonSettingsExercise.ts:67-73 | under the stated assumption about `flatAnswerList`, an answer is among a layout's available answers iff some cell of the layout carries it |

## Left out

- `src/app/exercise/exercise.module.ts`: Angular module declarations and imports. This is framework wiring with no behaviour.
- `src/app/exercise/utility/exercise-settings/GlobalExerciseSettings.ts`: a type-only interface with no operations. Its `bpm` field is a JavaScript float.
- `BaseExercise` is not part of this model. Neither are settings updates, question generation, or anything else it provides.
- Cell normalization (`normalizeAnswerLayoutCellConfig`) is not part of this model. Layout cells are given already normalized, so the model assumes normalization is the identity on normalized cells.
- AnswerLayout.FlatAnswerList: `Exercise.flatAnswerList` (called at BaseCommonSettingsExercise.ts:68 and :72) is outside this model. Its layout case is an assumed definition (the non-null answers in row-major order), not a transcription of its code.
- Overrides by concrete exercises, for example a narrower default selection, are not modelled. The model covers the base-class behaviour only.
- The `as GSettings` casts have no runtime meaning and are not modelled. Settings carry only `includedAnswers`.
- Angular and Ionic rendering of the settings form is not modelled. Only the descriptor value is.
