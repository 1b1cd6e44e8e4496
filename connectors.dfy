/** The arrows of the SVG layer. Every `<line>` element the component draws
    carries the class `arrow-line-<i>`, connecting box `i` to box `i + 1`;
    the layer is represented by how many such elements exist per index,
    since the same index can be drawn more than once. */
module Connectors {
  import opened Tree

  /** Number of `<line>` elements per class index; a missing key is 0. */
  type Lines = map<nat, nat>

  function Count(lines: Lines, i: nat): nat {
    if i in lines then lines[i] else 0
  }

  /** `svg.selectAll(".arrow-line-" + i).remove()` (line 30). */
  function RemoveClass(lines: Lines, i: nat): (r: Lines)
    ensures Count(r, i) == 0
    ensures forall x :: x != i ==> Count(r, x) == Count(lines, x)
  {
    lines - {i}
  }

  /** What the removal loop of lines 29-31 leaves: every arrow with an index
      in `[k, n)` is gone, every other arrow is untouched. */
  function RemoveRange(lines: Lines, k: nat, n: nat): (r: Lines)
    ensures forall x: nat :: Count(r, x) == if k <= x < n then 0 else Count(lines, x)
  {
    map x | x in lines && !(k <= x < n) :: lines[x]
  }

  /** Appending one `<line class="arrow-line-i">` (lines 77-80). */
  function AddLine(lines: Lines, i: nat): (r: Lines)
    ensures Count(r, i) == Count(lines, i) + 1
    ensures forall x :: x != i ==> Count(r, x) == Count(lines, x)
  {
    lines[i := Count(lines, i) + 1]
  }

  /** Whether the history effect draws, for a history of `n` steps and the
      set of step indices that have a box ref (lines 54-62). */
  predicate DrawReady(n: nat, mounted: set<nat>) {
    n >= 2 && n - 2 in mounted && n - 1 in mounted
  }

  /** The arrow layer after the history effect has run once: exactly one
      arrow with index `n - 2` more when both boxes are there, else as before. */
  function Effect(lines: Lines, n: nat, mounted: set<nat>): (r: Lines)
    ensures forall x: nat :: Count(r, x) ==
              Count(lines, x) + (if DrawReady(n, mounted) && x == n - 2 then 1 else 0)
  {
    if DrawReady(n, mounted) then AddLine(lines, n - 2) else lines
  }

  /** No arrow points at or past the last box of an `n`-step history. */
  ghost predicate Supported(lines: Lines, n: nat) {
    forall x: nat :: Count(lines, x) > 0 ==> x < n - 1
  }

  /** Every pair of consecutive boxes of an `n`-step history is joined. */
  predicate Covered(lines: Lines, n: nat) {
    forall x :: 0 <= x < n - 1 ==> Count(lines, x) > 0
  }

  /** Every pair of consecutive boxes is joined by exactly one arrow and
      there is no other arrow. */
  ghost predicate Exact(lines: Lines, n: nat) {
    forall x: nat :: Count(lines, x) == if x < n - 1 then 1 else 0
  }

  /** One click cycle: the removal loop of `handleOptionClick(k, option, j)`
      on an `|h|`-step history, then the effect on the new history. */
  function AfterClick(lines: Lines, h: seq<Step>, k: nat, option: Choice, j: nat,
                      mounted: set<nat>): Lines
    requires k < |h|
  {
    Effect(RemoveRange(lines, k, |h|), |Select(h, k, option, j)|, mounted)
  }

  /** A click cycle never leaves an arrow pointing to a box that is gone. */
  lemma ClickKeepsSupported(lines: Lines, h: seq<Step>, k: nat, option: Choice, j: nat,
                            mounted: set<nat>)
    requires k < |h| && Supported(lines, |h|)
    ensures Supported(AfterClick(lines, h, k, option, j, mounted), |Select(h, k, option, j)|)
  {
  }

  /** When the boxes of the new history are all mounted, a click cycle keeps
      every pair of consecutive boxes joined. */
  lemma ClickKeepsCovered(lines: Lines, h: seq<Step>, k: nat, option: Choice, j: nat,
                          mounted: set<nat>)
    requires k < |h| && Covered(lines, |h|)
    requires forall x :: 0 <= x < |Select(h, k, option, j)| ==> x in mounted
    ensures Covered(AfterClick(lines, h, k, option, j, mounted), |Select(h, k, option, j)|)
  {
  }

  /** Choosing an answer that continues the walk keeps exactly one arrow per
      pair of consecutive boxes. */
  lemma ContinuingChoiceKeepsExact(lines: Lines, h: seq<Step>, k: nat, option: Choice, j: nat,
                                   mounted: set<nat>)
    requires k < |h| && Exact(lines, |h|) && option.next.Some?
    requires k in mounted && k + 1 in mounted
    ensures Exact(AfterClick(lines, h, k, option, j, mounted), k + 2)
  {
  }

  /** Choosing a leaf answer on step `k >= 1` makes the effect draw arrow
      `k - 1` once more although it is already there: that pair of boxes is
      then joined by two overlapping `<line>` elements. */
  lemma LeafChoiceDuplicatesArrow(lines: Lines, h: seq<Step>, k: nat, option: Choice, j: nat,
                                  mounted: set<nat>)
    requires 1 <= k < |h| && Exact(lines, |h|) && option.next.None?
    requires k - 1 in mounted && k in mounted
    ensures Count(AfterClick(lines, h, k, option, j, mounted), k - 1) == 2
  {
  }

  /** On any arrow layer, a leaf answer on step `k >= 1` keeps the arrows
      with index `k - 1` and draws one more, so each further leaf answer on
      the last step stacks another overlapping `<line>`. */
  lemma LeafChoiceAddsArrow(lines: Lines, h: seq<Step>, k: nat, option: Choice, j: nat,
                            mounted: set<nat>)
    requires 1 <= k < |h| && option.next.None?
    requires k - 1 in mounted && k in mounted
    ensures Count(AfterClick(lines, h, k, option, j, mounted), k - 1) == Count(lines, k - 1) + 1
  {
  }
}
