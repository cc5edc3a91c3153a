/**
 The answer-list shapes an exercise offers: a flat list of answers, or a
 layout of rows of cells in which a cell may carry no answer (an empty slot).
 */
module AnswerLayout {
  import opened Optional

  /** An answer identifies one response option; exercises use string answers. */
  type Answer = string

  /**
   A layout cell after normalization: its answer, or `None` for an empty slot,
   and every other display field (label, width, ...) gathered in `meta`.
   */
  datatype Cell<M> = Cell(answer: Option<Answer>, meta: M)

  /** The two shapes an exercise's answer list can take. */
  datatype AnswerList<M> =
    | Flat(answers: seq<Answer>)
    | Layout(rows: seq<seq<Cell<M>>>)

  /** True iff some cell of `row` carries the answer `a`. */
  ghost predicate RowHas<M>(row: seq<Cell<M>>, a: Answer)
  {
    exists j :: 0 <= j < |row| && row[j].answer == Some(a)
  }

  /** True iff some cell of some row of `rows` carries the answer `a`. */
  ghost predicate LayoutHas<M>(rows: seq<seq<Cell<M>>>, a: Answer)
  {
    exists i :: 0 <= i < |rows| && RowHas(rows[i], a)
  }

  /** The answers of one row, left to right, empty slots skipped. */
  function RowAnswers<M>(row: seq<Cell<M>>): (r: seq<Answer>)
    ensures |r| <= |row|
    ensures forall a :: a in r <==> RowHas(row, a)
  {
    if row == [] then []
    else
      var rest := RowAnswers(row[1..]);
      assert forall a :: RowHas(row, a) <==> row[0].answer == Some(a) || RowHas(row[1..], a) by {
        forall a
          ensures RowHas(row, a) ==> row[0].answer == Some(a) || RowHas(row[1..], a)
        {
          if RowHas(row, a) {
            var j :| 0 <= j < |row| && row[j].answer == Some(a);
            if j > 0 {
              assert row[1..][j - 1] == row[j];
            }
          }
        }
      }
      match row[0].answer
      case None => rest
      case Some(a) => [a] + rest
  }

  /** The answers of a layout in row-major order, empty slots skipped. */
  function LayoutAnswers<M>(rows: seq<seq<Cell<M>>>): (r: seq<Answer>)
    ensures forall a :: a in r <==> LayoutHas(rows, a)
  {
    if rows == [] then []
    else
      var rest := LayoutAnswers(rows[1..]);
      assert forall a :: LayoutHas(rows, a) <==> RowHas(rows[0], a) || LayoutHas(rows[1..], a) by {
        forall a
          ensures LayoutHas(rows, a) ==> RowHas(rows[0], a) || LayoutHas(rows[1..], a)
        {
          if LayoutHas(rows, a) {
            var i :| 0 <= i < |rows| && RowHas(rows[i], a);
            if i > 0 {
              assert rows[1..][i - 1] == rows[i];
            }
          }
        }
      }
      RowAnswers(rows[0]) + rest
  }

  /**
   Every answer an answer list offers, as one flat list. A flat list is its own
   flattening; a layout contributes the answers of its cells in row-major order.
   */
  function FlatAnswerList<M>(list: AnswerList<M>): (r: seq<Answer>)
    ensures list.Layout? ==> forall a :: a in r <==> LayoutHas(list.rows, a)
  {
    match list
    case Flat(answers) => answers
    case Layout(rows) => LayoutAnswers(rows)
  }
}
