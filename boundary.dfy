/** The two conversions at the edge of the engine: the integer a user types
    for "no edge" becomes infinity on the way in, and infinity is shown as the
    infinity sign on the way out. */
module Boundary {
  import opened Weights

  /** The integer an input cell holds to mean "there is no edge". */
  const NoEdge: int := 9999

  /** The infinity sign, U+221E. */
  const InfinityGlyph: string := "\U{221E}"

  /** What a result table cell shows: the infinity sign, or a number as it is. */
  datatype Cell = Glyph(text: string) | Number(value: int)

  /** The weight an input cell stands for. */
  function ToWeight(cell: int): (w: Weight)
    ensures w == Inf <==> cell == NoEdge
    ensures cell != NoEdge ==> w == Fin(cell)
  {
    if cell == NoEdge then Inf else Fin(cell)
  }

  /** The rendering of one matrix entry. */
  function FormatMatrixValue(w: Weight): (c: Cell)
    ensures c == Glyph(InfinityGlyph) <==> w == Inf
    ensures w.Fin? ==> c == Number(w.value)
  {
    if w == Inf then Glyph(InfinityGlyph) else Number(w.value)
  }

  /** Exactly the weights other than a finite 9999 can be entered: an edge of
      weight 9999 cannot be expressed, because that integer means "no edge". */
  lemma EnterableWeights(w: Weight)
    ensures (exists cell :: ToWeight(cell) == w) <==> w != Fin(NoEdge)
  {
    if w == Inf {
      assert ToWeight(NoEdge) == w;
    } else if w != Fin(NoEdge) {
      assert ToWeight(w.value) == w;
    }
  }

  /** Rendering loses nothing: distinct weights are shown differently. */
  lemma FormatIsInjective(x: Weight, y: Weight)
    requires FormatMatrixValue(x) == FormatMatrixValue(y)
    ensures x == y
  {
  }

  /** An entered integer is shown as that integer, except that the no-edge
      marker 9999 is shown as the infinity sign. */
  lemma ShownAsEntered(cell: int)
    ensures FormatMatrixValue(ToWeight(cell)) ==
            if cell == NoEdge then Glyph(InfinityGlyph) else Number(cell)
  {
  }
}
