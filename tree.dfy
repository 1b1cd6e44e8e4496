/** The decision-tree content and the history of visited steps kept by the
    `DecisionTree` component (src/components/DecisionTree.jsx). */
module Tree {
  import opened Wrappers

  /** `node.question`: only its `label` is read (`text` here, since `label` is a Dafny keyword). */
  datatype Question = Question(text: String)

  type String = seq<char>

  /** A question node of the tree: `{ question, options }`. */
  datatype Node = Node(question: Question, options: seq<Choice>)

  /** One answer of a node: `{ label, name?, next? }` (`label` is `text`). An answer without
      `next` is a leaf of the tree. */
  datatype Choice = Choice(text: String, name: Option<String>, next: Option<Node>)

  /** One entry of `history`: the node shown and the index of the answer
      chosen on it, `null` while the step is still awaiting an answer. */
  datatype Step = Step(node: Node, selectedOption: Option<nat>)

  function Last(h: seq<Step>): Step
    requires |h| > 0
  {
    h[|h| - 1]
  }

  /** The step's chosen answer exists and continues to node `n`. */
  predicate Leads(s: Step, n: Node) {
    s.selectedOption.Some? && s.selectedOption.value < |s.node.options|
    && s.node.options[s.selectedOption.value].next == Some(n)
  }

  /** The step's chosen answer exists and is a leaf. */
  predicate Finished(s: Step) {
    s.selectedOption.Some? && s.selectedOption.value < |s.node.options|
    && s.node.options[s.selectedOption.value].next.None?
  }

  /** A history that is a real walk down the tree from `root`: every step but
      the last was answered with the answer leading to the next step, and the
      last step is answered with a leaf exactly when the walk has ended. */
  predicate Walk(root: Node, h: seq<Step>, ended: bool) {
    |h| >= 1 && h[0].node == root
    && (forall i :: 0 <= i < |h| - 1 ==> Leads(h[i], h[i + 1].node))
    && (if ended then Finished(Last(h)) else Last(h).selectedOption.None?)
  }

  /** The history that `handleOptionClick(k, option, j)` installs: the steps
      before `k` are kept, step `k` records answer `j`, and the node `option`
      continues to, if any, is appended as a fresh unanswered step. */
  function Select(h: seq<Step>, k: nat, option: Choice, j: nat): (r: seq<Step>)
    requires k < |h|
    ensures |r| == if option.next.Some? then k + 2 else k + 1
    ensures forall i :: 0 <= i < k ==> r[i] == h[i]
    ensures r[k].node == h[k].node && r[k].selectedOption == Some(j)
    ensures option.next.Some? ==> r[k + 1] == Step(option.next.value, None)
    ensures Last(r).selectedOption.Some? <==> option.next.None?
  {
    h[..k] + [h[k].(selectedOption := Some(j))]
    + (if option.next.Some? then [Step(option.next.value, None)] else [])
  }

  /** A click on a button of a walk (the answer passed is the one shown at
      index `j` of step `k`, as the button of line 156 passes it) yields a
      walk again, ended exactly when that answer is a leaf. */
  lemma SelectKeepsWalk(root: Node, h: seq<Step>, ended: bool, k: nat, j: nat)
    requires Walk(root, h, ended)
    requires k < |h| && j < |h[k].node.options|
    ensures Walk(root, Select(h, k, h[k].node.options[j], j), h[k].node.options[j].next.None?)
  {
  }

  /** Answering step `k` again discards whatever the earlier answer on that
      step appended: only the latest answer counts. */
  lemma ReselectOverrides(h: seq<Step>, k: nat, o1: Choice, j1: nat, o2: Choice, j2: nat)
    requires k < |h|
    ensures k < |Select(h, k, o1, j1)|
    ensures Select(Select(h, k, o1, j1), k, o2, j2) == Select(h, k, o2, j2)
  {
  }

  /** Answering a step never changes the steps before it and never grows the
      history by more than one step. A corollary of `Select`'s postconditions,
      restated on the whole prefix. */
  lemma SelectKeepsPrefix(h: seq<Step>, k: nat, option: Choice, j: nat)
    requires k < |h|
    ensures Select(h, k, option, j)[..k] == h[..k]
    ensures |Select(h, k, option, j)| <= |h| + 1
  {
  }
}
