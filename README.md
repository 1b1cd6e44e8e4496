# Decision-tree walk: a Dafny model

This project models the state machine of the `DecisionTree` React component
(`src/components/DecisionTree.jsx`). A visitor answers one question at a time.
Earlier answers stay on screen, stacked 140 pixels apart, and any earlier
answer can be changed, which throws away every later step. An SVG layer holds
at least one arrow `<line>` per pair of consecutive question boxes; each
leaf answer on step k >= 1 adds one more `arrow-line-<k-1>`, so repeated leaf
answers stack them. When the walk
reaches a leaf answer, the summary panel lists the names of the chosen
answers.

Files and modules:

- `wrappers.dfy` (`Wrappers`): `Option`, for JavaScript properties that may be absent.
- `tree.dfy` (`Tree`): the content datatypes (`Node`, `Choice`, `Question`),
  the history `Step`, the walk invariant `Walk`, and `Select`, the new
  history that `handleOptionClick` builds.
- `summary.dfy` (`SelectionSummary`): `computeSummary` as a left fold.
- `layout.dfy` (`Layout`): the fixed `top = stepIndex * 140` rule.
- `connectors.dfy` (`Connectors`): the arrow layer as a count of
  `arrow-line-<i>` elements per index, the removal loop, the history effect,
  and lemmas about one click cycle.
- `decision_tree.dfy` (`DecisionTreeComponent`): the class `DecisionTree`.
  Its fields are `history`, `isEnd`, `lines` and `boxRefs`. Each handler or
  effect is a method proved against the functions above. `WalkThroughTree`
  is a client walk through a two-question tree.

Modelling decisions:

- Each handler is one atomic update. `useEffect` is a separate method.
  `ClickOption` runs one whole cycle: the handler, the ref callbacks of the
  next render, then the effect.
- `handleOptionClick` takes the clicked option and its index separately, as
  in the source. Nothing checks that they agree. The walk invariant is
  therefore promised only for clicks whose option is the one shown at that
  index, which is what the button at line 156 passes.
- `computeSummary` returns `None` where JavaScript would throw a TypeError.
  That happens when `selectedOption` names no option, because `.name` is then
  read from `undefined`. `name` counts only when it is truthy: present and
  not `""`.
- The arrow layer is a count per index, not a set. The effect runs after
  every history change, not only after growth. So choosing a leaf answer on
  step `k >= 1` draws arrow `k - 1` once more (`LeafChoiceDuplicatesArrow`,
  and the client walk).
- The code places boxes at a fixed 140 pixels per step, draws only arrow
  `length - 2` on each history change, keeps no drawn/not-drawn table, and
  has no resize or scroll handling.

## Model

| member | source | states |
|---|---|---|
| `Tree.Select` | src/components/DecisionTree.jsx:33-47 | new history has length k+2 when the option continues and k+1 otherwise; steps before k are unchanged; step k keeps its node and records answer j; the appended step is the option's `next`, unanswered; the last step is answered exactly when the option is a leaf |
| `Tree.SelectKeepsWalk` | src/components/DecisionTree.jsx:42-47 | a click on a shown option turns a walk into a walk again, ended exactly when the option has no `next`, whatever the previous ended flag was |
| `Tree.ReselectOverrides` | src/components/DecisionTree.jsx:34-43 | answering step k twice gives the same history as answering it only the second time |
| `Tree.SelectKeepsPrefix` | src/components/DecisionTree.jsx:34 | the steps before the clicked one are kept verbatim, and the history grows by at most one step |
| `SelectionSummary.NameOf` | src/components/DecisionTree.jsx:100-101 | an option adds at most one name to the summary, its `name`, and only when that name is present and non-empty |
| `SelectionSummary.Collect` | src/components/DecisionTree.jsx:98-103 | the reducer throws exactly when the selected index names no option; an unanswered step leaves the accumulator alone; an answered one appends its option's name if truthy |
| `SelectionSummary.Summary` | src/components/DecisionTree.jsx:97-105 | the fold succeeds exactly when every selected index is in range; the summary is no longer than the history and holds no empty name |
| `SelectionSummary.SummaryAppend` | src/components/DecisionTree.jsx:98-104 | the summary of a concatenation is the first part's summary followed by the second's, so names come out in history order |
| `SelectionSummary.SummaryOfStep` | src/components/DecisionTree.jsx:99-102 | a single unanswered step gives an empty summary; a single answered step gives its option's name, or nothing when the name is absent or empty |
| `SelectionSummary.WalkHasSummary` | src/components/DecisionTree.jsx:100 | reading the chosen option's name never throws on a walk down the tree |
| `SelectionSummary.SummaryAfterSelect` | src/components/DecisionTree.jsx:97-105 | after a click, the summary is that of the steps before the clicked one followed by the clicked option's name |
| `Layout.Top` | src/components/DecisionTree.jsx:149 | box 0 sits at offset 0 and each box sits 140 pixels below the previous one |
| `Layout.Offsets` | src/components/DecisionTree.jsx:144-149 | one offset per step; the first is 0; consecutive offsets differ by exactly 140 |
| `Layout.OffsetsOrdered` | src/components/DecisionTree.jsx:149 | boxes i and j are exactly (j-i)*140 pixels apart |
| `Layout.OffsetsKeptUnderSelect` | src/components/DecisionTree.jsx:144-149 | a click never moves the boxes up to the clicked one |
| `Connectors.RemoveClass` | src/components/DecisionTree.jsx:30 | removing class i deletes every arrow with index i and no other arrow |
| `Connectors.RemoveRange` | src/components/DecisionTree.jsx:29-31 | the removal loop deletes every arrow with an index in [k, length) and leaves every other index's count as it was |
| `Connectors.AddLine` | src/components/DecisionTree.jsx:77-80 | appending a line raises the count of its index by one and changes no other index |
| `Connectors.Effect` | src/components/DecisionTree.jsx:54-80 | the effect adds exactly one arrow, index length-2, when length >= 2 and both boxes length-2 and length-1 have a ref, and otherwise changes nothing |
| `Connectors.ClickKeepsSupported` | src/components/DecisionTree.jsx:26-80 | after a click cycle no arrow refers to a step that is no longer in the history |
| `Connectors.ClickKeepsCovered` | src/components/DecisionTree.jsx:26-80 | when all boxes of the new history have refs, a click cycle keeps every pair of consecutive steps joined by an arrow |
| `Connectors.ContinuingChoiceKeepsExact` | src/components/DecisionTree.jsx:26-80 | choosing an option with `next` keeps exactly one arrow per consecutive pair, and no other arrow |
| `Connectors.LeafChoiceDuplicatesArrow` | src/components/DecisionTree.jsx:29-31 | choosing a leaf option on step k >= 1 leaves two arrows with index k-1, because removal starts at k and the effect draws k-1 again |
| `Connectors.LeafChoiceAddsArrow` | src/components/DecisionTree.jsx:29-80 | on any arrow layer, a leaf answer on step k >= 1 with both boxes mounted adds exactly one `arrow-line-<k-1>` to those already there, so repeated leaf answers stack them |
| `DecisionTreeComponent.DecisionTree.constructor` | src/components/DecisionTree.jsx:9-13 | initial state is one unanswered root step, not ended, with no arrows and no refs |
| `DecisionTreeComponent.DecisionTree.SetBoxRef` | src/components/DecisionTree.jsx:16-20 | a null node leaves `boxRefs` unchanged; a box node changes only entry `index` |
| `DecisionTreeComponent.DecisionTree.AttachRefs` | src/components/DecisionTree.jsx:144-148 | after a render commits, every rendered step's entry is its box, and entries of unmounted steps stay |
| `DecisionTreeComponent.DecisionTree.HandleOptionClick` | src/components/DecisionTree.jsx:26-50 | new history is `Select` of the old one; `isEnd` is true exactly when the option has no `next`; arrows from `stepIndex` up to the old length are removed and all others kept; a walk stays a walk for a click on a shown option |
| `DecisionTreeComponent.DecisionTree.DrawNewestArrow` | src/components/DecisionTree.jsx:53-94 | the arrow layer becomes `Effect` of the old one; history and refs are untouched |
| `DecisionTreeComponent.DecisionTree.ComputeSummary` | src/components/DecisionTree.jsx:97-105 | on a walk the summary exists and is no longer than the history |
| `DecisionTreeComponent.DecisionTree.StartOver` | src/components/DecisionTree.jsx:107-111 | history becomes the single unanswered root step, `isEnd` false, no arrow of any index; `boxRefs` is kept |
| `DecisionTreeComponent.DecisionTree.ClickOption` | src/components/DecisionTree.jsx:156 | one click on a shown option: walk, covered and (for a continuing option) exact arrow layers are preserved, and each field's new value is stated |

## Left out

- The d3 transition, its 1000 ms animation, and the SVG marker definitions (lines 89-93, 129-141). These are rendering and wall-clock timing.
- The endpoint geometry from `getBoundingClientRect` (lines 65-73). This is floating-point DOM measurement. The model records only which arrow index is drawn.
- React's asynchronous `setState` scheduling and re-rendering. Each handler is one atomic update followed by the effect.
- The JSX markup: the question and option labels are carried in the datatypes but not rendered, and neither is the `selected` class (line 157). Also the blur class and the Fireworks and SummaryBox components (lines 113-174).
- Calls with `stepIndex` outside the history: `HandleOptionClick` requires `stepIndex < |history|`. The only caller is a button rendered for an existing step, so such calls cannot happen.
- src/components/Fireworks.jsx, src/components/Arrow.jsx, src/components/SummaryBox.jsx and src/data/articles.js are not part of this model. They are random particle animation, markup and a static table.
- Measured-height layout, resize-triggered redraw and scroll adjustment: not in the code.
