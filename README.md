# ID3 decision trees and their sideways drawing

This project is a Dafny model of `tree.py`, a small ID3 decision-tree
inducer with an ASCII renderer. The table of training records is a list of
rows of string fields. The first row names the columns, and the target
attribute is column 0. Three parts are modelled:

- **Induction.** `create_decision_tree` first takes a majority vote over the
  target column. It returns a leaf in two cases: when no attribute except
  the target is left, or when every record has the same target value.
  Otherwise it asks `choose_attribute` for the best-scoring attribute. It
  then makes one node for each distinct value of that attribute's column.
  Each such node holds the tree built from the matching records, with the
  chosen attribute removed from the list.
- **The tree.** A node is a label plus its children, in order.
- **Rendering.** `print_tree` sorts a node's children by subtree size. It
  moves the largest children into a "down" group until that group weighs at
  least as much as what stays "up". It then draws the up group, the node's
  own line and the down group, with indents and box-drawing glyphs.

The modules follow the same division:

- `Table` covers records, columns, `get_values` and `get_examples`, and the
  key order of a dict filled by a scan.
- `Selection` covers `max(d, key=d.get)`, `majority_value` and
  `choose_attribute`.
- `Tree` covers `Node` and `nb_children`.
- `Induction` covers `create_decision_tree` and the properties of the trees
  it builds.
- `Render` covers `print_tree`.
- `Weather` works one induction through by hand.

How the model treats the harder parts:

- **Dict order and ties.** A Python dict lists its keys in insertion order.
  `max` keeps the first key whose value is maximal. So both
  `majority_value` and `choose_attribute` break ties in favour of the
  candidate met first. `IsFirstMax` states that exactly.
- **Gain.** The gain function is a parameter `score`. It receives the
  dataset, the position of a name in the current attribute list, and the
  target column.
- **Column lookup.** `index_names` is a parameter too: the header's map from
  name to column.
- **The column that is scored.** The code scores the name's position in the
  *current* list, not the name's column. These agree at the root but not
  below it (`ScoredColumnAtRoot`, `ScoredColumnBelowRoot`). The model keeps
  this behaviour as written.
- **Child order.** Children come from iterating a set, whose order Python
  does not fix. `Induced` therefore specifies the tree up to the order of
  children at each split. `CreateDecisionTree` picks the next value with
  Dafny's `:|`.
- **Printing.** `print_tree` is modelled as the list of lines it prints.
  The pure function `Render` specifies it. The methods `PrintTree`,
  `PrintGroup` and `SplitBranches` keep the source's loops and are proved
  equal to that specification.

## Model

| member | source | states |
|---|---|---|
| Table.Column | tree.py:37 | the target column has one entry per record, entry `i` being field `col` of record `i` |
| Table.FirstIndex | tree.py:11 | `list.index`: the first position holding `x` — it holds `x` and no earlier position does |
| Table.Distinct | tree.py:5-10 | the key order of a dict filled by scanning `s`: exactly the elements of `s`, without repeats |
| Table.DistinctInOrder | tree.py:5-10 | the keys are listed in the order of their first occurrence in the scanned list |
| Table.Examples | tree.py:28-29 | `get_examples` keeps exactly the records whose field equals `v`, each as often as in `data`, in their original order |
| Table.Values | tree.py:24-25 | `get_values` holds exactly the values found in the column, and is non-empty for non-empty data |
| Table.ExamplesValues | tree.py:24-29 | the records selected by a value take, in any column, only values the whole dataset takes there |
| Table.ExamplesHasColumn | tree.py:29 | a filtered dataset still has every column the dataset has |
| Table.ExamplesNonEmpty | tree.py:24-29 | every value returned by `get_values` selects at least one record |
| Table.RegroupCount | tree.py:24-29 | with distinct values, the parts for those values hold each record as often as `data` does when its value is listed, and not at all otherwise |
| Table.PartitionIsLossless | tree.py:24-29 | the parts for all values of `get_values`, put together, are a permutation of `data`: no record lost or duplicated |
| Selection.FirstMaxUnique | tree.py:11 | the first maximum is unique, so the tie-break of `max` determines the answer |
| Selection.IsFirstMax | tree.py:11 | the answer of `max(d, key=d.get)` occurs in the list, has a value, and comes strictly before every other element with an equal value |
| Selection.FirstArgMax | tree.py:11 | `max(d, key=d.get)` over keys in insertion order returns a key whose value is maximal and strictly greater than that of every earlier key |
| Selection.FirstArgMaxOverDistinct | tree.py:11 | that key is the first maximum over the scanned list itself |
| Selection.DistinctSnoc | tree.py:7-10 | scanning one more element adds it to the keys exactly when it is new |
| Selection.FrequenciesSnoc | tree.py:7-10 | counting one more value increments its count, or sets it to 1 when it is new |
| Selection.Frequencies | tree.py:5-10 | the dict `val_freq` is empty exactly for an empty column, and the first value is counted at least once and at most once per record |
| Selection.CountStep | tree.py:6-10 | one turn of the counting loop moves keys and counts from the prefix `vals[..i]` to `vals[..i+1]` |
| Selection.CountDone | tree.py:11 | after the loop the keys and counts are those of the whole column, and there is at least one key |
| Selection.MajorityValue | tree.py:4-11 | on non-empty data, the result occurs in the target column, no value occurs more often, and among equally frequent values it is the one that occurs first |
| Selection.CandidatesMembers | tree.py:16-20 | the scored names are exactly the names at positions other than `target_attr` |
| Selection.LastPos | tree.py:20 | a name listed twice keeps the score of its last position, since assigning a dict key overwrites it |
| Selection.LastPosStep | tree.py:20 | a position holding another name leaves a name's last position unchanged |
| Selection.Gains | tree.py:15-20 | the dict `gains` is empty exactly when no position other than `target_attr` is scanned |
| Selection.GainSkip | tree.py:17-18 | the target position adds no key and changes no score |
| Selection.KeyAssign | tree.py:20 | any other position appends its name to the dict's keys exactly when it is not a key yet |
| Selection.GainAssign | tree.py:20 | and sets that name's score to the score of this position |
| Selection.ScoreStep | tree.py:16-20 | one turn of the scoring loop keeps the keys and the dict equal to those of the prefix scanned so far |
| Selection.GainDone | tree.py:21 | with at least one candidate, after the loop every candidate has a score and there is a key |
| Selection.ScoreCandidates | tree.py:15-20 | the loop builds the dict whose keys, in insertion order, are the candidate names and whose values are their scores |
| Selection.ChooseAttribute | tree.py:14-21 | with at least one candidate, the result is a candidate whose score is maximal, the first such in list order |
| Selection.ChosenIsNotTarget | tree.py:16-18 | with distinct attribute names, the name at the target position is never chosen |
| Selection.RepeatedTargetNameCanWin | tree.py:16-21 | without distinct names the target's own name can be chosen: in `play a play` with target 0, `play` wins when position 2 scores higher than position 1 |
| Selection.ScoredColumnAtRoot | tree.py:20 | when every name sits at its own column, as at the root, a candidate's score is that of its own column |
| Selection.ScoredColumnBelowRoot | tree.py:20 | below the root the scored column can differ from the name's column: `temp` is scored on column 1 while its column is 2 |
| Tree.Size | tree.py:131-132 | `nb_children` counts the node and at least one node per child |
| Tree.SumSizes | tree.py:132 | the sizes of `n` subtrees add up to at least `n` |
| Tree.SumSizesAppend | tree.py:132 | sizes add up over a concatenation of child lists |
| Tree.SumSizesAtLeast | tree.py:132 | a subtree in a child list counts no more nodes than the whole list |
| Tree.ChildIsSmaller | tree.py:120-132 | a child of a `Node` counts fewer nodes than the node, so the recursion over `children` ends |
| Induction.Without | tree.py:65 | `[attr for attr in attributes if attr != best]` keeps every other name and is strictly shorter when `best` is listed |
| Induction.CountIsLengthIffAllSame | tree.py:47 | `vals.count(vals[0]) == len(vals)` holds exactly when every value equals the first |
| Induction.Names | tree.py:60-62 | the labels of the branch nodes, in order |
| Induction.Induced | tree.py:32-69 | an induced tree is a leaf or is labelled with one of the given attribute names |
| Induction.LabelsStep | tree.py:60-62 | adding a node for an unvisited value keeps the labels distinct and equal to the values visited |
| Induction.LabelsDone | tree.py:60-62 | once every value is visited, the labels are exactly the values of the column |
| Induction.NoAttributeLeaf | tree.py:43-44 | with at most one attribute the result is a leaf holding the majority value |
| Induction.PureLeaf | tree.py:47-48 | with at least two attributes and a constant target column, the result is a leaf holding that value |
| Induction.SomeCandidate | tree.py:43-52 | past the first test there is a name to score, so `max` does not raise |
| Induction.BuildStep | tree.py:60-67 | one turn of the loop adds a value node whose single child is the tree induced from that value's records without `best` |
| Induction.BuildDone | tree.py:56-69 | after the loop the node labelled `best`, holding the value nodes, is the induced tree |
| Induction.SplitOn | tree.py:58-67 | the loop over `get_values` builds one node per distinct value, each holding the subtree induced from its records without `best` |
| Induction.CreateDecisionTree | tree.py:32-69 | on non-empty data the result is a tree of the shape `Induced` gives: majority leaf, constant leaf, or split on the first best-scoring candidate with one value node per distinct value |
| Induction.SplitFacts | tree.py:49-69 | an induced tree on undecided data splits on one of the attributes |
| Induction.SplitIsInduced | tree.py:49-69 | on records whose target values differ, a split on the first best-scoring candidate, with a value node per value, is the induced tree |
| Induction.BranchFacts | tree.py:62-67 | a value node has exactly one child, induced from its non-empty records with one attribute fewer |
| Induction.ConstantTargetGivesLeaf | tree.py:43-48 | a constant target column always gives the leaf labelled with that value, however many attributes are left |
| Induction.InducedBranchesPartition | tree.py:60-67 | the records handed to the value nodes of a split, put together, are a permutation of the node's records |
| Induction.LeavesInMono | tree.py:32-69 | a bound on the leaf labels stays a bound when it is widened |
| Induction.InducedLeaves | tree.py:32-69 | every leaf label of an induced tree is a value of the target column in the training records |
| Induction.SplitLeaves | tree.py:49-69 | the same, for a split node |
| Induction.BranchLeaves | tree.py:60-67 | the same, for a value node |
| Induction.InducedSplitsOnAttributes | tree.py:49-69 | an induced tree splits only on attributes from the given list |
| Induction.SplitSplits | tree.py:49-69 | the same, for a split node |
| Induction.BranchSplits | tree.py:62-67 | below the value nodes of a split on `best`, no split is on `best` |
| Induction.InducedNoRepeatedSplit | tree.py:65 | no path of an induced tree splits twice on the same attribute |
| Induction.SplitNoRepeat | tree.py:65 | the same, for a split node |
| Induction.BranchNoRepeat | tree.py:65 | the same, below a value node |
| Induction.InducedHeight | tree.py:32-69 | with `n` attributes, every path of an induced tree has at most `2n - 1` nodes (1 for a leaf) |
| Induction.SplitHeight | tree.py:49-69 | the same, for a split node |
| Induction.BranchHeight | tree.py:60-67 | a value node adds one level to the tree induced below it |
| Weather.SunnyExamples | tree.py:28-29 | `get_examples` on `outlook` = `sunny` keeps the first two records |
| Weather.RainExamples | tree.py:28-29 | and on `rain` the last two |
| Weather.HotExamples | tree.py:28-29 | `temp` = `hot` keeps both sunny records |
| Weather.OutlookValues | tree.py:24-25 | `get_values` on `outlook` is `{sunny, rain}` |
| Weather.TempValues | tree.py:24-25 | `get_values` on `temp` among the sunny records is `{hot}` |
| Weather.RainIsLeaf | tree.py:47-48 | the rain records all say `yes`, so they give the leaf `yes` |
| Weather.HotIsLeaf | tree.py:43-44 | with only the target left, the tie between `yes` and `no` goes to `yes`, the first seen |
| Weather.TempIsChosen | tree.py:14-21 | under `sunny`, `temp` is the only candidate and is chosen |
| Weather.OutlookIsChosen | tree.py:14-21 | at the root, with equal scores, the tie goes to `outlook`, listed before `temp` |
| Weather.OutlookWithout | tree.py:65 | removing `outlook` leaves `play temp` |
| Weather.HotBranch | tree.py:60-67 | the value node `hot` holds the leaf induced from both sunny records |
| Weather.SunnySplit | tree.py:56-67 | the sunny records split on `temp` into the single value node `hot` |
| Weather.SunnySplitsOnTemp | tree.py:49-69 | the tree induced from the sunny records is that split |
| Weather.SunnyBranch | tree.py:60-67 | the value node `sunny` holds that tree |
| Weather.RainBranch | tree.py:60-67 | the value node `rain` holds the leaf `yes` |
| Weather.RootSplit | tree.py:56-67 | the root splits on `outlook` into `sunny` and `rain` |
| Weather.WeatherTree | tree.py:32-69 | when `outlook` and `temp` score alike at the root, the whole table induces that tree |
| Weather.OnlyChild | tree.py:60-62 | a split on a column with one value has exactly one value node, labelled with it |
| Weather.TwoChildren | tree.py:60-62 | a split on a column with two values has exactly two value nodes, one per value, in either order |
| Weather.RainUnique | tree.py:47-48 | the rain records induce no tree but the leaf `yes` |
| Weather.HotLeafUnique | tree.py:43-44 | with only the target left, the sunny records induce no tree but the leaf `yes` |
| Weather.HotNodeUnique | tree.py:60-67 | the only value node `hot` under `temp` holds that leaf |
| Weather.SunnyRootUnique | tree.py:49-62 | any tree induced from the sunny records splits on `temp` into one value node `hot` |
| Weather.SunnyTreeUnique | tree.py:32-69 | the sunny records induce no tree but the `temp` split |
| Weather.SunnyNodeUnique | tree.py:60-67 | the only value node `sunny` under `outlook` holds that split |
| Weather.RainNodeUnique | tree.py:60-67 | the only value node `rain` under `outlook` holds the leaf `yes` |
| Weather.RootUnique | tree.py:49-62 | under the tie, any tree induced from the table splits on `outlook` into a `sunny` and a `rain` value node |
| Weather.BranchesUnique | tree.py:56-67 | such a root with those two value nodes is the expected tree, up to the order of the two nodes |
| Weather.WeatherTreeUnique | tree.py:32-69 | conversely, under the tie every tree induced from the table is the expected one, up to the order of the root's two children |
| Render.WeightSnoc | tree.py:139 | the weight of a prefix grows by the key of its last element |
| Render.WeightUpToPrefix | tree.py:139 | summed from the left, the weight of the first `n` elements is the weight of the prefix |
| Render.WeightUpToAll | tree.py:139 | the weight of a list is the same summed from either end |
| Render.WeightAppend | tree.py:139 | weights add up over a concatenation |
| Render.Weight | tree.py:139 | `sum(size_branch[node] for node in ...)`: at least the first element's key, and exactly it for a single element |
| Render.WeightIsSumSizes | tree.py:131-134 | the weight of a child list under `Size` is `sum(nb_children(c) for c in ...)` |
| Render.Insert | tree.py:137 | inserting into a list adds exactly one element and its key to the weight |
| Render.InsertAtLeast | tree.py:137 | a lower bound on every key survives inserting an element whose key meets it |
| Render.InsertAscending | tree.py:137 | inserting into an ascending list keeps it ascending |
| Render.ConsAscending | tree.py:137 | an element no larger than the head of an ascending list may be put in front |
| Render.SortByKey | tree.py:137 | `sorted(children, key=nb_children)` is an ascending permutation of the children, with the same weight |
| Render.WithKeyAppend | tree.py:137 | the elements with one key, taken from a concatenation, are those of each part in turn |
| Render.WithKeyNone | tree.py:137 | when every key exceeds `k`, no element has key `k` |
| Render.InsertStable | tree.py:137 | inserting puts an element after every element with the same key |
| Render.SortStable | tree.py:137 | the sort is stable: equal-sized children keep their relative order |
| Render.Reversed | tree.py:140 | the reversal of a list, element by element |
| Render.ReversedMultiset | tree.py:140 | reversing permutes |
| Render.WeightReversed | tree.py:139-140 | reversing keeps the weight |
| Render.StopsAtUnique | tree.py:139-140 | the stopping point of the popping loop is unique |
| Render.Balance | tree.py:138-140 | the popping loop only removes elements from `up`, which never grows |
| Render.BalancePermutes | tree.py:139-140 | the loop only moves elements from `up` to `down`: together they keep the same elements |
| Render.PopStep | tree.py:140 | one pop moves the last element of `up` to the end of `down` |
| Render.BalanceStops | tree.py:139-140 | started at a cut the loop moves past, the loop stops at the stopping point, `up` a prefix of the sorted list and `down` the rest reversed |
| Render.PassStep | tree.py:139 | a cut the loop moves past leaves every cut below it to be checked in turn |
| Render.PopEnds | tree.py:140 | after one pop the loop ends where the loop from the next cut down ends |
| Render.StopsHere | tree.py:139 | a cut the loop does not move past is the stopping point, with `up` the prefix and `down` the rest reversed |
| Render.BalanceFromTop | tree.py:137-140 | started with every child in `up`, it stops at the stopping point, and the two lists are a permutation of the sorted children |
| Render.Branches | tree.py:134-140 | `up` and `down` together are a permutation of the children |
| Render.BranchesCut | tree.py:134-140 | `up` is the sorted children up to the stopping point, `down` the rest reversed |
| Render.ReversedDescending | tree.py:137-140 | an ascending list reversed is descending |
| Render.CutOrder | tree.py:137-140 | the two sides of a cut of a sorted list are ascending and descending, and together a permutation |
| Render.CutWeights | tree.py:139 | the two sides share the weight, and at the stopping point `down` weighs at least as much as a non-empty `up` |
| Render.CutNotAtEnd | tree.py:139 | when the first element has positive weight, the loop pops at least once |
| Render.CutProperties | tree.py:137-140 | the facts above for any key |
| Render.BranchesProperties | tree.py:134-140 | `up + down` is a permutation of the children; `down` is non-empty when there are children; `up` is empty or `down` weighs at least as much; `up` ascends and `down` descends in size; the weights add up |
| Render.PopKeeps | tree.py:139-140 | one turn of the popping loop keeps `up`/`down` a cut of the sorted children, with every cut above it passed |
| Render.ExitIsBalance | tree.py:139-140 | where the loop exits it has produced exactly what `Balance` gives |
| Render.SplitBranches | tree.py:137-140 | the sort and the `while` loop with `pop`/`append` end with the same `up` and `down` as `Balance` on the sorted children |
| Render.Spaces | tree.py:145 | `" " * n` is `n` spaces |
| Render.ChildIndent | tree.py:145 | a child's indent extends the node's indent by one rule glyph and as many spaces as the name has characters |
| Render.Contains | tree.py:145 | Python's `in` on strings: a string contains each of its prefixes, and only strings no longer than itself |
| Render.StartShape | tree.py:149-156 | the corner glyph is `┌` exactly for `up`, `└` exactly for `down`, a space exactly for `updown`, and `├` otherwise |
| Render.EndShape | tree.py:158-163 | the joining glyph is at most one character, and empty exactly when both groups are empty |
| Render.Tag | tree.py:144-169 | a child is tagged `up` exactly when it is first in the up group and `down` exactly when it is last in the down group |
| Render.ChildOf | tree.py:143 | an element of the up or down group is a child of the node |
| Render.GroupSnoc | tree.py:143-146 | drawing one more child of a group appends that child's lines |
| Render.Group | tree.py:143-146 | a group of `n` children prints at least one line per child |
| Render.RenderLength | tree.py:130-171 | `print_tree` prints exactly `nb_children(node)` lines, one per node of the subtree |
| Render.Render | tree.py:130-171 | `print_tree` prints at least the node's own line (RenderLength, RenderOwnLine and LeafLine give the count, the line and the leaf case) |
| Render.GroupLength | tree.py:143-146 | a group prints as many lines as its children's subtrees have nodes |
| Render.AllStartWithEach | tree.py:145 | the prefix property is the same as each line starting with the prefix |
| Render.StartWithConcat | tree.py:143-171 | the prefix property holds over a concatenation of line lists |
| Render.PrefixTrans | tree.py:145 | lines starting with a child's indent start with the node's indent |
| Render.LinePrefix | tree.py:165 | the node's own line starts with the indent |
| Render.RenderIndent | tree.py:130-171 | every line `print_tree(node, indent, last)` prints starts with `indent` |
| Render.GroupIndent | tree.py:143-146 | every line of a group starts with the group's indent |
| Render.RenderOwnLine | tree.py:148-165 | the node's own line comes right after the up group's lines and is indent, corner glyph for `last`, name and joining glyph |
| Render.OwnLineEnd | tree.py:158-163 | the line ends bare exactly for a leaf, with `┐` exactly when the node has children but `up` is empty, and with `┤` when `up` is not empty |
| Render.PrintTree | tree.py:130-171 | the lines printed, in order, are those `Render` specifies |
| Render.PrintGroup | tree.py:143-146 | the `for child in up` (or `down`) loop prints each child in turn with its tag |
| Render.LeafLine | tree.py:149-165 | a leaf prints one line: indent, corner glyph and name |
| Render.SortTwoTied | tree.py:137 | two children of equal size keep their order when sorted |
| Render.BalanceTwoTied | tree.py:139-140 | two equal non-zero weights end one up and one down |
| Render.TwoLeavesBranches | tree.py:134-140 | a node with two leaves draws the first above and the second below |
| Render.GroupOfOne | tree.py:143-146 | a group of one child is that child's lines |
| Render.RootIndents | tree.py:145 | the root's tag `updown` contains both `up` and `down`, so neither side draws a vertical rule |
| Render.RenderStep | tree.py:130-171 | one level of the drawing for a node whose groups are known |
| Render.TwoLeaves | tree.py:130-171 | a root `r` with leaves `b` and `c` is drawn as `  ┌b`, ` r┤`, `  └c` |

## Left out

- `entropy` and `gain` (tree.py:72-117) compute with floats and
  `math.log`. The model replaces them with an arbitrary integer-valued
  `score`. Its value for each name is all that `choose_attribute` uses.
  Ties are modelled, since integer scores can tie. `gain` cannot give NaN:
  every division in it is by a positive count. An arbitrary integer score
  covers any outcome of float rounding.
- `read_data_from_file` and the `__main__` driver (tree.py:174-189) do file
  and console I/O. Of the driver the model keeps only two facts: `index_names`
  maps each header name to its column, and here it is a parameter.
- `fitness_func` is always `max` in the source, so the model fixes it to
  `max`.
- `print` writes to standard output. `Render` and `PrintTree` return the
  lines instead.
- `Node.parent` (tree.py:123, tree.py:126-127) is written and never read, so
  `Node` is a value without it. The in-place appends to `children` are
  modelled as building the child sequence, and object identity and aliasing
  are not modelled.
- `data = data[:]` (tree.py:36) copies a list that is never mutated. On
  values it has no effect.
- `is` compares the list positions in tree.py:144 and tree.py:169. CPython
  makes that integer equality only for small integers, and the model uses
  equality. `up.index(child)` finds a child's own position because nodes
  compare by identity, so the model uses the loop index.
- Python exceptions are preconditions rather than error results:
  - `max` on an empty dict in `majority_value` and `choose_attribute`;
  - an index out of range when a record is too short;
  - a `KeyError` for a name missing from `index_names`.
  The source handles none of them.
- Induction.CreateDecisionTree: the order of the children is whatever order
  the set yields. The model and `Induced` leave it unspecified, so no
  particular order is proved.
