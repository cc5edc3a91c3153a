/**
 Properties of the answer-inclusion projection: what the flat filter computes,
 what the layout mask keeps, idempotence, and how the default settings and the
 settings form relate to the projection.
 */
module CommonSettingsProperties {
  import opened Optional
  import opened Subsequences
  import opened AnswerLayout
  import opened CommonSettingsExercise

  // ---------------------------------------------------------------------------
  // Flat filter: an independent characterisation
  // ---------------------------------------------------------------------------

  /** The filtered list keeps the order of the full list. */
  lemma {:induction false} FilterIsSubsequence(all: seq<Answer>, included: seq<Answer>)
    ensures IsSubsequence(FilterIncluded(all, included), all)
  {
    if all != [] {
      FilterIsSubsequence(all[1..], included);
      var rest := FilterIncluded(all[1..], included);
      if all[0] in included {
        assert ([all[0]] + rest)[1..] == rest;
      }
    }
  }

  /** Each included answer occurs as often as in the full list; no other answer occurs. */
  lemma {:induction false} FilterCounts(all: seq<Answer>, included: seq<Answer>)
    ensures forall a :: multiset(FilterIncluded(all, included))[a] ==
                        if a in included then multiset(all)[a] else 0
  {
    if all != [] {
      FilterCounts(all[1..], included);
      assert all == [all[0]] + all[1..];
      if all[0] in included {
        assert FilterIncluded(all, included) == [all[0]] + FilterIncluded(all[1..], included);
      }
    }
  }

  /**
   The two facts above pin the filter down: any order-preserving selection
   from `all` with those per-answer counts is the filtered list.
   */
  lemma {:induction false} FilterUnique(all: seq<Answer>, included: seq<Answer>, r: seq<Answer>)
    requires IsSubsequence(r, all)
    requires forall a :: multiset(r)[a] == if a in included then multiset(all)[a] else 0
    ensures r == FilterIncluded(all, included)
    decreases |all|
  {
    if all == [] {
      assert r == [];
    } else {
      var x := all[0];
      var rest := all[1..];
      assert all == [x] + rest;
      assert forall a :: multiset(all)[a] == multiset(rest)[a] + (if a == x then 1 else 0);
      if x in included {
        assert multiset(r)[x] >= 1;
        assert r != [];
        if !(r[0] == x && IsSubsequence(r[1..], rest)) {
          assert IsSubsequence(r, rest);
          SubsequenceMultiset(r, rest);
          assert false;
        }
        assert r == [x] + r[1..];
        assert forall a :: multiset(r[1..])[a] == multiset(r)[a] - (if a == x then 1 else 0);
        FilterUnique(rest, included, r[1..]);
      } else {
        if r != [] {
          assert r == [r[0]] + r[1..];
          assert multiset(r)[r[0]] >= 1;
          assert r[0] != x;
          assert IsSubsequence(r, rest);
        }
        FilterUnique(rest, included, r);
      }
    }
  }

  /** Hence the flat filter is exactly "the included members, in order, per occurrence". */
  lemma FilterCharacterisation(all: seq<Answer>, included: seq<Answer>, r: seq<Answer>)
    ensures r == FilterIncluded(all, included) <==>
              && IsSubsequence(r, all)
              && forall a :: multiset(r)[a] == if a in included then multiset(all)[a] else 0
  {
    if r == FilterIncluded(all, included) {
      FilterIsSubsequence(all, included);
      FilterCounts(all, included);
    }
    if IsSubsequence(r, all) && forall a :: multiset(r)[a] == if a in included then multiset(all)[a] else 0 {
      FilterUnique(all, included, r);
    }
  }

  /** When every answer of the list is included, the filter returns the whole list. */
  lemma {:induction false} FilterAllIncluded(all: seq<Answer>, included: seq<Answer>)
    requires forall a :: a in all ==> a in included
    ensures FilterIncluded(all, included) == all
  {
    if all != [] {
      FilterAllIncluded(all[1..], included);
      assert all == [all[0]] + all[1..];
    }
  }

  /** Filtering an already filtered list with the same selection changes nothing. */
  lemma {:induction false} FilterIdempotent(all: seq<Answer>, included: seq<Answer>)
    ensures FilterIncluded(FilterIncluded(all, included), included) == FilterIncluded(all, included)
  {
    FilterAllIncluded(FilterIncluded(all, included), included);
  }

  // ---------------------------------------------------------------------------
  // Layout mask
  // ---------------------------------------------------------------------------

  /** Masking a masked layout with the same selection changes nothing. */
  lemma MaskIdempotent<M>(rows: seq<seq<Cell<M>>>, included: seq<Answer>)
    ensures MaskLayout(MaskLayout(rows, included), included) == MaskLayout(rows, included)
  {
    var once := MaskLayout(rows, included);
    var twice := MaskLayout(once, included);
    forall i | 0 <= i < |rows|
      ensures twice[i] == once[i]
    {
      forall j | 0 <= j < |rows[i]|
        ensures twice[i][j] == once[i][j]
      {
        assert once[i][j] == MaskCell(rows[i][j], included);
      }
    }
  }

  /** A cell of the masked layout equals its source cell exactly when masking left it alone. */
  lemma MaskKeepsCell<M>(rows: seq<seq<Cell<M>>>, included: seq<Answer>, i: nat, j: nat)
    requires i < |rows| && j < |rows[i]|
    ensures MaskLayout(rows, included)[i][j] == rows[i][j] <==>
              rows[i][j].answer.None? || Shown(rows[i][j], included)
  {
  }

  // ---------------------------------------------------------------------------
  // The projection as a whole
  // ---------------------------------------------------------------------------

  /** Projecting an already projected answer list again with the same selection changes nothing. */
  lemma ProjectIdempotent<M>(all: AnswerList<M>, included: seq<Answer>)
    ensures ProjectAnswerList(ProjectAnswerList(all, included), included) == ProjectAnswerList(all, included)
  {
    match all
    case Flat(answers) => FilterIdempotent(answers, included);
    case Layout(rows) => MaskIdempotent(rows, included);
  }

  /**
   The flat filter keeps every occurrence of an included empty string; the
   layout mask nulls every cell carrying it, because the layout test checks
   the answer for truthiness first.
   */
  lemma EmptyAnswerAsymmetry<M>(all: seq<Answer>, rows: seq<seq<Cell<M>>>, included: seq<Answer>)
    requires "" in included
    ensures multiset(FilterIncluded(all, included))[""] == multiset(all)[""]
    ensures forall i, j :: 0 <= i < |rows| && 0 <= j < |rows[i]| && rows[i][j].answer == Some("") ==>
              MaskLayout(rows, included)[i][j].answer == None
  {
    FilterCounts(all, included);
  }

  /** A concrete instance: `[""]` survives the flat filter, a one-cell `""` layout is nulled. */
  lemma EmptyAnswerExample<M>(meta: M)
    ensures ProjectAnswerList<M>(Flat([""]), [""]) == Flat([""])
    ensures ProjectAnswerList(Layout([[Cell(Some(""), meta)]]), [""]) == Layout([[Cell(None, meta)]])
  {
    assert FilterIncluded([""], [""]) == [""] + FilterIncluded([], [""]);
    var out := MaskLayout([[Cell(Some(""), meta)]], [""]);
    assert out[0][0] == Cell(None, meta);
    assert out[0] == [Cell(None, meta)];
  }

  /**
   Away from the empty string the two tests agree: a cell carrying a
   non-empty answer survives the mask exactly when that answer survives the
   flat filter.
   */
  lemma LayoutAgreesWithFlatOnNonEmpty<M>(a: Answer, meta: M, included: seq<Answer>)
    requires a != ""
    ensures MaskCell(Cell(Some(a), meta), included) == Cell(Some(a), meta) <==>
              FilterIncluded([a], included) == [a]
  {
  }

  // ---------------------------------------------------------------------------
  // Defaults and the settings form
  // ---------------------------------------------------------------------------

  /** The options offered by the settings form are, in order, the answers selected by default. */
  lemma DescriptorOptionsAreDefaults<M>(all: AnswerList<M>)
    ensures var options := SettingsDescriptor(all)[0].descriptor.allOptions;
            && |options| == |DefaultSettings(all).includedAnswers|
            && forall k :: 0 <= k < |options| ==>
                 options[k].value == DefaultSettings(all).includedAnswers[k]
                 && options[k].labelText == options[k].value
  {
  }

  /** A new exercise over a flat list presents the whole list. */
  lemma NewFlatExerciseShowsAll<M>(answers: seq<Answer>)
    ensures GetAnswerList(NewExercise<M>(Flat(answers))) == Flat(answers)
  {
    FilterAllIncluded(answers, answers);
  }

  /**
   A new exercise over a layout presents every cell unchanged except the cells
   whose answer is the empty string, which lose their answer.
   */
  lemma NewLayoutExerciseShowsAll<M>(rows: seq<seq<Cell<M>>>)
    ensures var out := GetAnswerList(NewExercise(Layout(rows)));
            && out.Layout?
            && |out.rows| == |rows|
            && forall i, j :: 0 <= i < |rows| && 0 <= j < |rows[i]| ==>
                 (out.rows[i][j] == rows[i][j] <==> rows[i][j].answer != Some(""))
  {
  }
}
