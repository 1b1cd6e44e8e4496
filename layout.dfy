/** Vertical placement of the question boxes: each box is positioned with
    `style={{ top: stepIndex * 140 }}` (src/components/DecisionTree.jsx:149),
    a fixed spacing that does not depend on any box's rendered height. */
module Layout {
  import opened Tree

  /** Pixels between the tops of two consecutive boxes. */
  const StepSpacing: nat := 140

  /** The `top` offset of the box for step `stepIndex`. */
  function Top(stepIndex: nat): (t: nat)
    ensures stepIndex == 0 ==> t == 0
    ensures stepIndex > 0 ==> t == Top(stepIndex - 1) + StepSpacing
  {
    stepIndex * StepSpacing
  }

  /** The offsets of all rendered boxes, one per step of the history. */
  function Offsets(h: seq<Step>): (tops: seq<nat>)
    ensures |tops| == |h|
    ensures |h| > 0 ==> tops[0] == 0
    ensures forall i :: 0 <= i < |h| - 1 ==> tops[i + 1] == tops[i] + StepSpacing
  {
    seq(|h|, i requires 0 <= i < |h| => Top(i))
  }

  /** Boxes are strictly ordered top to bottom, `StepSpacing` per step apart. */
  lemma OffsetsOrdered(h: seq<Step>, i: nat, j: nat)
    requires i <= j < |h|
    ensures Offsets(h)[j] - Offsets(h)[i] == (j - i) * StepSpacing
  {
  }

  /** Answering a step never moves the boxes that stay on screen. A corollary
      of the offsets depending on the step index alone. */
  lemma OffsetsKeptUnderSelect(h: seq<Step>, k: nat, option: Choice, j: nat)
    requires k < |h|
    ensures Offsets(Select(h, k, option, j))[..k + 1] == Offsets(h)[..k + 1]
  {
  }
}
