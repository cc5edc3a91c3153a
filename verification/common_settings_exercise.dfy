/**
 The common-settings layer of an exercise: the user's `includedAnswers`
 selection, the answer list it projects the exercise's full answer list to,
 the settings-form descriptor that lets the user edit the selection, and the
 default selection.
 */
module CommonSettingsExercise {
  import opened Optional
  import opened AnswerLayout

  /** The settings every common-settings exercise carries. */
  datatype Settings = Settings(includedAnswers: seq<Answer>)

  /** One option of a list-select control. */
  datatype SelectOption = SelectOption(value: Answer, labelText: string)

  /** A list-select control: its control type, its label and its options. */
  datatype ControlDescriptor = ControlDescriptor(controlType: string, labelText: string, allOptions: seq<SelectOption>)

  /** Binds one settings key to the control that edits it. */
  datatype SettingsControlDescriptor = SettingsControlDescriptor(key: string, descriptor: ControlDescriptor)

  /** An exercise as built: full answer list, settings form and current settings. */
  datatype Exercise<M> = Exercise(
    allAnswersList: AnswerList<M>,
    settingsDescriptor: seq<SettingsControlDescriptor>,
    settings: Settings)

  const IncludedAnswersKey: string := "includedAnswers"
  const ListSelectControlType: string := "LIST_SELECT"
  const IncludedAnswersLabel: string := "Included Options"

  // ---------------------------------------------------------------------------
  // Flat answer lists: order-preserving filter
  // ---------------------------------------------------------------------------

  /** The answers of `all` that occur in `included`, in their order in `all`. */
  function FilterIncluded(all: seq<Answer>, included: seq<Answer>): (r: seq<Answer>)
    ensures |r| <= |all|
    ensures forall a :: a in r <==> a in all && a in included
    ensures included == [] ==> r == []
  {
    if all == [] then []
    else if all[0] in included then [all[0]] + FilterIncluded(all[1..], included)
    else FilterIncluded(all[1..], included)
  }

  /** The filter as a single left-to-right pass that appends each included answer. */
  method FilterIncludedLoop(all: seq<Answer>, included: seq<Answer>) returns (r: seq<Answer>)
    ensures r == FilterIncluded(all, included)
  {
    r := [];
    var i := 0;
    while i < |all|
      invariant 0 <= i <= |all|
      invariant r + FilterIncluded(all[i..], included) == FilterIncluded(all, included)
    {
      assert all[i..][1..] == all[i + 1..];
      if all[i] in included {
        assert FilterIncluded(all[i..], included) == [all[i]] + FilterIncluded(all[i + 1..], included);
        r := r + [all[i]];
      } else {
        assert FilterIncluded(all[i..], included) == FilterIncluded(all[i + 1..], included);
      }
      i := i + 1;
    }
    assert all[i..] == [];
  }

  // ---------------------------------------------------------------------------
  // Layouts: shape-preserving mask
  // ---------------------------------------------------------------------------

  /**
   A cell stays selectable iff its answer is truthy and included. The answer
   is a string or null, so truthy means present and not the empty string.
   */
  predicate Shown<M>(c: Cell<M>, included: seq<Answer>)
  {
    c.answer.Some? && c.answer.value != "" && c.answer.value in included
  }

  /** A shown cell unchanged; any other cell with its answer nulled. */
  function MaskCell<M>(c: Cell<M>, included: seq<Answer>): (r: Cell<M>)
    ensures r.meta == c.meta
    ensures Shown(c, included) ==> r == c
    ensures !Shown(c, included) ==> r.answer == None
  {
    if Shown(c, included) then c else c.(answer := None)
  }

  /** The layout with every cell masked, same number of rows and cells per row. */
  function MaskLayout<M>(rows: seq<seq<Cell<M>>>, included: seq<Answer>): (r: seq<seq<Cell<M>>>)
    ensures |r| == |rows|
    ensures forall i :: 0 <= i < |rows| ==> |r[i]| == |rows[i]|
    ensures forall i, j :: 0 <= i < |rows| && 0 <= j < |rows[i]| ==>
              && r[i][j].meta == rows[i][j].meta
              && r[i][j].answer == (if Shown(rows[i][j], included) then rows[i][j].answer else None)
  {
    seq(|rows|, i requires 0 <= i < |rows| =>
      seq(|rows[i]|, j requires 0 <= j < |rows[i]| => MaskCell(rows[i][j], included)))
  }

  // ---------------------------------------------------------------------------
  // getAnswerList
  // ---------------------------------------------------------------------------

  /**
   The answer list presented to the user: a flat list filtered by the
   selection, or a layout with the excluded cells' answers nulled.
   */
  function ProjectAnswerList<M>(all: AnswerList<M>, included: seq<Answer>): (r: AnswerList<M>)
    ensures r.Flat? <==> all.Flat?
    ensures all.Flat? ==> |r.answers| <= |all.answers|
    ensures all.Layout? ==> |r.rows| == |all.rows|
    ensures all.Layout? ==> forall i :: 0 <= i < |all.rows| ==> |r.rows[i]| == |all.rows[i]|
    ensures all.Layout? ==> forall a :: LayoutHas(r.rows, a) ==> a in included
    ensures forall a :: a in FlatAnswerList(r) ==> a in included
  {
    match all
    case Flat(answers) => Flat(FilterIncluded(answers, included))
    case Layout(rows) =>
      var masked := MaskLayout(rows, included);
      assert forall a :: LayoutHas(masked, a) ==> a in included by {
        forall a | LayoutHas(masked, a)
          ensures a in included
        {
          var i :| 0 <= i < |masked| && RowHas(masked[i], a);
          var j :| 0 <= j < |masked[i]| && masked[i][j].answer == Some(a);
        }
      }
      Layout(masked)
  }

  /** `getAnswerList`: the exercise's full list projected through its current settings. */
  function GetAnswerList<M>(ex: Exercise<M>): (r: AnswerList<M>)
    ensures r.Layout? <==> ex.allAnswersList.Layout?
    ensures ex.allAnswersList.Flat? ==> |r.answers| <= |ex.allAnswersList.answers|
    ensures ex.allAnswersList.Layout? ==> |r.rows| == |ex.allAnswersList.rows|
    ensures ex.allAnswersList.Layout? ==>
              forall i :: 0 <= i < |ex.allAnswersList.rows| ==> |r.rows[i]| == |ex.allAnswersList.rows[i]|
    ensures r.Layout? ==> forall a :: LayoutHas(r.rows, a) ==> a in ex.settings.includedAnswers
    ensures forall a :: a in FlatAnswerList(r) ==> a in ex.settings.includedAnswers
  {
    ProjectAnswerList(ex.allAnswersList, ex.settings.includedAnswers)
  }

  // ---------------------------------------------------------------------------
  // Settings descriptor and defaults
  // ---------------------------------------------------------------------------

  /** The answers offered as options in the settings form. */
  function IncludedAnswersOptions<M>(all: AnswerList<M>): (r: seq<Answer>)
    ensures all.Flat? ==> r == all.answers
    ensures all.Layout? ==> forall a :: a in r <==> LayoutHas(all.rows, a)
  {
    FlatAnswerList(all)
  }

  /** The answers selected when the user has not changed the settings. */
  function DefaultSelectedIncludedAnswers<M>(all: AnswerList<M>): (r: seq<Answer>)
    ensures all.Flat? ==> r == all.answers
    ensures all.Layout? ==> forall a :: a in r <==> LayoutHas(all.rows, a)
  {
    FlatAnswerList(all)
  }

  /**
   The settings form: one list-select control bound to `includedAnswers`,
   offering each available answer, in order, under its own name.
   */
  function SettingsDescriptor<M>(all: AnswerList<M>): (r: seq<SettingsControlDescriptor>)
    ensures |r| == 1
    ensures r[0].key == IncludedAnswersKey
    ensures r[0].descriptor.controlType == ListSelectControlType
    ensures r[0].descriptor.labelText == IncludedAnswersLabel
    ensures |r[0].descriptor.allOptions| == |IncludedAnswersOptions(all)|
    ensures forall k :: 0 <= k < |r[0].descriptor.allOptions| ==>
              r[0].descriptor.allOptions[k] == SelectOption(IncludedAnswersOptions(all)[k], IncludedAnswersOptions(all)[k])
  {
    var options := IncludedAnswersOptions(all);
    var allOptions := seq(|options|, k requires 0 <= k < |options| => SelectOption(options[k], options[k]));
    [SettingsControlDescriptor(IncludedAnswersKey, ControlDescriptor(ListSelectControlType, IncludedAnswersLabel, allOptions))]
  }

  /** The default settings: every available answer is included. */
  function DefaultSettings<M>(all: AnswerList<M>): (s: Settings)
    ensures s.includedAnswers == IncludedAnswersOptions(all)
    ensures all.Layout? ==> forall a :: a in s.includedAnswers <==> LayoutHas(all.rows, a)
  {
    Settings(DefaultSelectedIncludedAnswers(all))
  }

  /** A freshly built exercise: its answer list, settings form and default settings. */
  function NewExercise<M>(all: AnswerList<M>): (ex: Exercise<M>)
    ensures ex.allAnswersList == all
    ensures |ex.settingsDescriptor| == 1
    ensures |ex.settingsDescriptor[0].descriptor.allOptions| == |ex.settings.includedAnswers|
    ensures forall k :: 0 <= k < |ex.settings.includedAnswers| ==>
              ex.settingsDescriptor[0].descriptor.allOptions[k].value == ex.settings.includedAnswers[k]
  {
    Exercise(all, SettingsDescriptor(all), DefaultSettings(all))
  }
}
