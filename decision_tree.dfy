/** The `DecisionTree` component (src/components/DecisionTree.jsx) as an
    object: its React state (`history`, `isEnd`), the arrows of its SVG layer
    and its `boxRefs` dictionary are fields, and each handler or effect is a
    method that updates them in one atomic step. */
module DecisionTreeComponent {
  import opened Wrappers
  import opened Tree
  import opened SelectionSummary
  import opened Connectors

  /** A rendered question-box DOM element, known only by its identity. */
  datatype Box = Box(id: nat)

  class DecisionTree {
    /** The tree content loaded from `data.json`. */
    const root: Node
    var history: seq<Step>
    var isEnd: bool
    /** The `<line class="arrow-line-i">` elements of the SVG layer. */
    var lines: Lines
    /** `boxRefs.current`: step index to its mounted box. */
    var boxRefs: map<nat, Box>

    /** The facts every handler keeps, whatever arguments it is called with,
        even when an option and its index disagree. The full walk invariant
        `Walk` is kept only by real clicks, so it is stated separately as a
        conditional postcondition of `HandleOptionClick` and `ClickOption`. */
    ghost predicate Valid()
      reads this
    {
      |history| >= 1 && history[0].node == root
      && (isEnd <==> Last(history).selectedOption.Some?)
      && Supported(lines, |history|)
    }

    /** First render: one unanswered root step, no arrows, no refs. */
    constructor (data: Node)
      ensures Valid() && root == data
      ensures history == [Step(data, None)] && !isEnd
      ensures lines == map[] && boxRefs == map[]
      ensures Walk(root, history, isEnd) && Exact(lines, |history|)
    {
      root := data;
      history := [Step(data, None)];
      isEnd := false;
      lines := map[];
      boxRefs := map[];
    }

    /** `setBoxRef(index, node)`: a `null` node (an unmounting box) is
        ignored, so the entry of an unmounted box stays behind. */
    method SetBoxRef(index: nat, node: Option<Box>)
      modifies this`boxRefs
      ensures node.None? ==> boxRefs == old(boxRefs)
      ensures node.Some? ==> boxRefs == old(boxRefs)[index := node.value]
    {
      if node.Some? {
        boxRefs := boxRefs[index := node.value];
      }
    }

    /** The ref callbacks React invokes while committing a render of
        `history`: `setBoxRef(stepIndex, box)` for every rendered box. */
    method AttachRefs(boxes: seq<Box>)
      requires |boxes| == |history|
      modifies this`boxRefs
      ensures boxRefs == old(boxRefs) + map i | 0 <= i < |boxes| :: boxes[i]
    {
      for i := 0 to |boxes|
        invariant boxRefs == old(boxRefs) + map x | 0 <= x < i :: boxes[x]
      {
        SetBoxRef(i, Some(boxes[i]));
        assert (old(boxRefs) + map x | 0 <= x < i :: boxes[x])[i := boxes[i]]
            == old(boxRefs) + map x | 0 <= x < i + 1 :: boxes[x];
      }
    }

    /** `handleOptionClick(stepIndex, option, optionIndex)`: removes the
        arrows from `stepIndex` on, truncates the history after the clicked
        step, records the answer and appends the next step or ends. */
    method HandleOptionClick(stepIndex: nat, option: Choice, optionIndex: nat)
      requires Valid() && stepIndex < |history|
      modifies this`history, this`isEnd, this`lines
      ensures Valid()
      ensures history == Select(old(history), stepIndex, option, optionIndex)
      ensures isEnd <==> option.next.None?
      ensures lines == RemoveRange(old(lines), stepIndex, |old(history)|)
      ensures old(Walk(root, history, isEnd))
              && optionIndex < |old(history)[stepIndex].node.options|
              && option == old(history)[stepIndex].node.options[optionIndex]
              ==> Walk(root, history, isEnd)
    {
      ghost var walked, ended := Walk(root, history, isEnd), isEnd;
      for i := stepIndex to |history|
        invariant history == old(history) && isEnd == old(isEnd)
        invariant lines == RemoveRange(old(lines), stepIndex, i)
      {
        lines := RemoveClass(lines, i);
        assert RemoveClass(RemoveRange(old(lines), stepIndex, i), i)
            == RemoveRange(old(lines), stepIndex, i + 1);
      }

      var newHistory := history[..stepIndex + 1];
      newHistory := newHistory[stepIndex := newHistory[stepIndex].(selectedOption := Some(optionIndex))];
      if option.next.Some? {
        newHistory := newHistory + [Step(option.next.value, None)];
        isEnd := false;
      } else {
        isEnd := true;
      }
      assert newHistory == Select(history, stepIndex, option, optionIndex);
      if walked && optionIndex < |history[stepIndex].node.options|
         && option == history[stepIndex].node.options[optionIndex] {
        SelectKeepsWalk(root, history, ended, stepIndex, optionIndex);
      }
      ClickKeepsSupported(old(lines), history, stepIndex, option, optionIndex, {});
      history := newHistory;
    }

    /** The `useEffect` on `history`: draws arrow `|history| - 2` when both
        of its boxes have a ref, and otherwise does nothing. */
    method DrawNewestArrow()
      requires Valid()
      modifies this`lines
      ensures Valid()
      ensures lines == Effect(old(lines), |history|, boxRefs.Keys)
    {
      if |history| < 2 {
        return;
      }
      var currentIndex := |history| - 2;
      var nextIndex := |history| - 1;
      if currentIndex !in boxRefs || nextIndex !in boxRefs {
        return;
      }
      lines := AddLine(lines, currentIndex);
    }

    /** `computeSummary()` on the current history. */
    function ComputeSummary(): (r: Option<seq<String>>)
      reads this
      ensures Walk(root, history, isEnd) ==> r.Some? && |r.value| <= |history|
    {
      var r := Summary(history);
      assert Walk(root, history, isEnd) ==> r.Some? by {
        if Walk(root, history, isEnd) {
          WalkHasSummary(root, history, isEnd);
        }
      }
      r
    }

    /** `startOver()`: removes every line and goes back to the root. The
        `boxRefs` dictionary is not cleared. */
    method StartOver()
      requires Valid()
      modifies this`history, this`isEnd, this`lines
      ensures Valid()
      ensures history == [Step(root, None)] && !isEnd && lines == map[]
      ensures Walk(root, history, isEnd) && Exact(lines, |history|)
    {
      lines := map[];
      isEnd := false;
      history := [Step(root, None)];
    }

    /** One full cycle of the button of line 156 for answer `optionIndex`
        of step `stepIndex`: the handler, the commit of the new render that
        mounts `boxes`, then the history effect. */
    method ClickOption(stepIndex: nat, optionIndex: nat, boxes: seq<Box>)
      requires Valid() && stepIndex < |history|
      requires optionIndex < |history[stepIndex].node.options|
      requires |boxes| == |Select(history, stepIndex, history[stepIndex].node.options[optionIndex], optionIndex)|
      modifies this`history, this`isEnd, this`lines, this`boxRefs
      ensures Valid()
      ensures history == Select(old(history), stepIndex, old(history)[stepIndex].node.options[optionIndex], optionIndex)
      ensures isEnd <==> old(history)[stepIndex].node.options[optionIndex].next.None?
      ensures boxRefs == old(boxRefs) + map i | 0 <= i < |boxes| :: boxes[i]
      ensures lines == AfterClick(old(lines), old(history), stepIndex,
                                  old(history)[stepIndex].node.options[optionIndex], optionIndex, boxRefs.Keys)
      ensures old(Walk(root, history, isEnd)) ==> Walk(root, history, isEnd)
      ensures old(Covered(lines, |history|)) ==> Covered(lines, |history|)
      ensures old(Exact(lines, |history|)) && !isEnd ==> Exact(lines, |history|)
    {
      var option := history[stepIndex].node.options[optionIndex];
      ghost var h0, l0 := history, lines;
      HandleOptionClick(stepIndex, option, optionIndex);
      AttachRefs(boxes);
      assert forall x :: 0 <= x < |history| ==> x in boxRefs.Keys;
      DrawNewestArrow();
      if Covered(l0, |h0|) {
        ClickKeepsCovered(l0, h0, stepIndex, option, optionIndex, boxRefs.Keys);
      }
      if Exact(l0, |h0|) && !isEnd {
        ContinuingChoiceKeepsExact(l0, h0, stepIndex, option, optionIndex, boxRefs.Keys);
      }
    }
  }

  /** A client walk: the root asks one question with a continuing answer
      "A" and a leaf answer "B"; the second question has a leaf answer "C". */
  method WalkThroughTree()
  {
    var second := Node(Question("Second?"), [Choice("C", Some("C"), None)]);
    var rootNode := Node(Question("First?"),
                         [Choice("A", Some("A"), Some(second)), Choice("B", Some("B"), None)]);
    var t := new DecisionTree(rootNode);

    t.ClickOption(0, 0, [Box(0), Box(1)]);
    assert |t.history| == 2 && !t.isEnd && Count(t.lines, 0) == 1;

    ghost var h1, l1 := t.history, t.lines;
    t.ClickOption(1, 0, [Box(0), Box(1)]);
    assert |t.history| == 2 && t.isEnd;
    assert 0 in t.boxRefs && 1 in t.boxRefs;
    LeafChoiceDuplicatesArrow(l1, h1, 1, second.options[0], 0, t.boxRefs.Keys);
    assert Count(t.lines, 0) == 2;  // arrow 0 is drawn a second time

    t.ClickOption(0, 1, [Box(0)]);
    assert |t.history| == 1 && t.isEnd && Count(t.lines, 0) == 0;
    SummaryOfStep(t.history[0]);
    assert t.ComputeSummary() == Some(["B"]);

    t.StartOver();
    assert t.history == [Step(rootNode, None)] && !t.isEnd;
  }
}
