/** `computeSummary` (src/components/DecisionTree.jsx:97-105): the names of
    the chosen answers, in the order of the history, handed to the summary
    panel once the walk has ended. */
module SelectionSummary {
  import opened Wrappers
  import opened Tree

  /** JavaScript truthiness of a `name` property: present and not "". */
  predicate Truthy(name: Option<String>) {
    name.Some? && name.value != ""
  }

  /** Reading `step.node.options[step.selectedOption].name` does not throw:
      either no answer is chosen or the index names an existing answer. */
  predicate InRange(s: Step) {
    s.selectedOption.None? || s.selectedOption.value < |s.node.options|
  }

  predicate Indexed(h: seq<Step>) {
    forall i :: 0 <= i < |h| ==> InRange(h[i])
  }

  /** What one answer adds to the summary. */
  function NameOf(c: Choice): (r: seq<String>)
    ensures |r| <= 1
    ensures r != [] <==> Truthy(c.name)
    ensures r != [] ==> r[0] == c.name.value
  {
    if Truthy(c.name) then [c.name.value] else []
  }

  /** The reducer of the fold. `None` stands for the TypeError raised when
      the chosen index names no answer (reading `.name` of `undefined`). */
  function Collect(acc: seq<String>, s: Step): (r: Option<seq<String>>)
    ensures r.Some? <==> InRange(s)
    ensures r.Some? && s.selectedOption.None? ==> r.value == acc
    ensures r.Some? && s.selectedOption.Some? ==>
              r.value == acc + NameOf(s.node.options[s.selectedOption.value])
  {
    match s.selectedOption
    case None => Some(acc)
    case Some(k) =>
      if k < |s.node.options| then Some(acc + NameOf(s.node.options[k])) else None
  }

  /** `history.reduce(reducer, [])`: a left fold from the root step on. */
  function Summary(h: seq<Step>): (r: Option<seq<String>>)
    decreases |h|
    ensures r.Some? <==> Indexed(h)
    ensures r.Some? ==> |r.value| <= |h|
    ensures r.Some? ==> forall x :: x in r.value ==> x != ""
  {
    if h == [] then Some([])
    else
      match Summary(h[..|h| - 1])
      case None => None
      case Some(acc) => Collect(acc, h[|h| - 1])
  }

  /** Concatenation of two partial summaries; a thrown error wins. */
  function Join(x: Option<seq<String>>, y: Option<seq<String>>): Option<seq<String>> {
    if x.Some? && y.Some? then Some(x.value + y.value) else None
  }

  /** The fold keeps history order: the summary of a history split in two is
      the summary of the first part followed by that of the second. */
  lemma {:induction false} SummaryAppend(a: seq<Step>, b: seq<Step>)
    ensures Summary(a + b) == Join(Summary(a), Summary(b))
    decreases |b|
  {
    if b == [] {
      assert a + b == a;
      assert Summary(b) == Some([]);
      if Summary(a).Some? {
        assert Summary(a).value + [] == Summary(a).value;
      }
    } else {
      var b' := b[..|b| - 1];
      var s := b[|b| - 1];
      assert (a + b)[..|a + b| - 1] == a + b';
      assert (a + b)[|a + b| - 1] == s;
      SummaryAppend(a, b');
      var sa, sb' := Summary(a), Summary(b');
      if sa.Some? && sb'.Some? && InRange(s) {
        match s.selectedOption
        case None =>
        case Some(k) =>
          assert sa.value + sb'.value + NameOf(s.node.options[k])
              == sa.value + (sb'.value + NameOf(s.node.options[k]));
      }
    }
  }

  /** A single step contributes the name of its chosen answer, or nothing
      when it is unanswered or the name is absent or empty. */
  lemma SummaryOfStep(s: Step)
    ensures s.selectedOption.None? ==> Summary([s]) == Some([])
    ensures s.selectedOption.Some? && s.selectedOption.value < |s.node.options| ==>
              Summary([s]) == Some(NameOf(s.node.options[s.selectedOption.value]))
  {
    assert [s][..0] == [];
    if s.selectedOption.Some? && s.selectedOption.value < |s.node.options| {
      var n := NameOf(s.node.options[s.selectedOption.value]);
      assert [] + n == n;
    }
  }

  /** Every walk down the tree can be summarised without error. */
  lemma WalkHasSummary(root: Node, h: seq<Step>, ended: bool)
    requires Walk(root, h, ended)
    ensures Summary(h).Some?
  {
    forall i | 0 <= i < |h|
      ensures InRange(h[i])
    {
      if i < |h| - 1 {
        assert Leads(h[i], h[i + 1].node);
      }
    }
  }

  /** After answering step `k` with the answer shown at index `j`, the
      summary is that of the steps before `k` followed by the new answer's
      name (if truthy): the appended unanswered step adds nothing. */
  lemma SummaryAfterSelect(h: seq<Step>, k: nat, j: nat)
    requires k < |h| && j < |h[k].node.options|
    ensures Summary(Select(h, k, h[k].node.options[j], j))
         == Join(Summary(h[..k]), Some(NameOf(h[k].node.options[j])))
  {
    var option := h[k].node.options[j];
    var r := Select(h, k, option, j);
    var sk := h[k].(selectedOption := Some(j));
    var tail := if option.next.Some? then [Step(option.next.value, None)] else [];
    assert r == h[..k] + [sk] + tail;
    SummaryAppend(h[..k] + [sk], tail);
    SummaryAppend(h[..k], [sk]);
    SummaryOfStep(sk);
    if option.next.Some? {
      SummaryOfStep(Step(option.next.value, None));
    } else {
      assert Summary(tail) == Some([]);
    }
    if Summary(h[..k]).Some? {
      var x := Summary(h[..k]).value + NameOf(option);
      assert x + [] == x;
    }
  }
}
