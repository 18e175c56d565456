/** ID3 induction: `create_decision_tree` and what it promises.

    The induced tree is specified by `Induced`, which follows the three
    branches of the source: no attribute left to split on (a leaf labelled
    with the majority value), a dataset whose target values all agree (a leaf
    labelled with that value), and a split on the best-scoring attribute (one
    branch node per distinct value of that attribute's column, each holding
    the tree induced from the matching records with the attribute removed).
    The order of the branch nodes is that of iterating a Python set, which
    the source leaves unspecified, so `Induced` admits every order.
 */
module Induction {
  import opened Table
  import opened Selection
  import opened Tree

  /** What the inducer needs of its input: every record has the target column,
      and every attribute name has a column in `index` (the header's
      name-to-column map) that every record has. */
  predicate WellFormed(data: Dataset, attributes: seq<string>, target: nat, index: map<string, nat>)
  {
    && HasColumn(data, target)
    && forall a | a in attributes :: a in index && HasColumn(data, index[a])
  }

  /** `[attr for attr in attributes if attr != best]`. */
  function Without(attributes: seq<string>, best: string): (rest: seq<string>)
    ensures forall a :: a in rest <==> a in attributes && a != best
    ensures |rest| <= |attributes|
    ensures best in attributes ==> |rest| < |attributes|
  {
    if attributes == [] then []
    else (if attributes[0] == best then [] else [attributes[0]]) + Without(attributes[1..], best)
  }

  /** Every value of `vals` equals the first. */
  predicate AllSame(vals: seq<string>)
  {
    forall i | 0 <= i < |vals| :: vals[i] == vals[0]
  }

  /** The source's purity test `vals.count(vals[0]) == len(vals)` holds
      exactly when every value equals the first. */
  lemma {:induction false} CountIsLengthIffAllSame(vals: seq<string>, x: string)
    ensures multiset(vals)[x] == |vals| <==> forall i | 0 <= i < |vals| :: vals[i] == x
  {
    if vals != [] {
      var init, last := vals[..|vals| - 1], vals[|vals| - 1];
      assert vals == init + [last];
      CountIsLengthIffAllSame(init, x);
      assert multiset(vals) == multiset(init) + multiset{last};
      assert multiset(init)[x] <= |init|;
      if forall i | 0 <= i < |vals| :: vals[i] == x {
        assert forall i | 0 <= i < |init| :: init[i] == x;
      }
    }
  }

  /** The labels of `nodes`, in order. */
  function Names(nodes: seq<Node>): (names: seq<string>)
    ensures |names| == |nodes|
    ensures forall i | 0 <= i < |nodes| :: names[i] == nodes[i].name
  {
    seq(|nodes|, i requires 0 <= i < |nodes| => nodes[i].name)
  }

  /** The tree `create_decision_tree(data, attributes, target, max)` may
      return, with `score` standing for `gain` and `index` for the global
      `index_names`. */
  ghost predicate Induced(t: Node, data: Dataset, attributes: seq<string>, target: nat,
                          score: Score, index: map<string, nat>)
    requires |data| > 0 && WellFormed(data, attributes, target, index)
    ensures Induced(t, data, attributes, target, score, index) ==> t.children == [] || t.name in attributes
    decreases |attributes|, 2
  {
    var vals := Column(data, target);
    if |attributes| <= 1 then
      t.children == [] && IsFirstMax(vals, Frequencies(vals), t.name)
    else if AllSame(vals) then
      t == Node(vals[0], [])
    else
      && IsFirstMax(Candidates(attributes, target), Gains(data, attributes, target, score, |attributes|), t.name)
      && t.name in attributes
      && IsSplit(t, data, attributes, target, score, index)
  }

  /** `t` splits on the attribute `t.name`: one branch node per distinct
      value of its column, in some order. */
  ghost predicate IsSplit(t: Node, data: Dataset, attributes: seq<string>, target: nat,
                          score: Score, index: map<string, nat>)
    requires WellFormed(data, attributes, target, index) && t.name in attributes
    decreases |attributes|, 1
  {
    var col := index[t.name];
    && (set c | c in t.children :: c.name) == Values(data, col)
    && (forall i, j | 0 <= i < j < |t.children| :: t.children[i].name != t.children[j].name)
    && forall c | c in t.children :: IsBranch(c, data, col, attributes, t.name, target, score, index)
  }

  /** `c` is the node for value `c.name` of the column `col` of `best`: its
      single child is the tree induced from the records holding that value,
      with `best` removed from the attributes. */
  ghost predicate IsBranch(c: Node, data: Dataset, col: nat, attributes: seq<string>, best: string,
                           target: nat, score: Score, index: map<string, nat>)
    requires HasColumn(data, col) && WellFormed(data, attributes, target, index) && best in attributes
    decreases |attributes|, 0
  {
    && |c.children| == 1
    && Examples(data, col, c.name) != []
    && Induced(c.children[0], Examples(data, col, c.name), Without(attributes, best), target, score, index)
  }

  /** The bookkeeping of the branch loop: the nodes built so far carry
      distinct labels, and their labels are the values already visited. */
  predicate LabelsSoFar(children: seq<Node>, values: set<string>, todo: set<string>)
  {
    && todo <= values
    && (forall i | 0 <= i < |children| :: children[i].name in values && children[i].name !in todo)
    && (forall v | v in values && v !in todo :: v in Names(children))
    && (forall i, j | 0 <= i < j < |children| :: children[i].name != children[j].name)
  }

  /** Visiting one more value and adding its branch node keeps the
      bookkeeping. */
  lemma LabelsStep(children: seq<Node>, values: set<string>, todo: set<string>, c: Node)
    requires LabelsSoFar(children, values, todo) && c.name in todo
    ensures LabelsSoFar(children + [c], values, todo - {c.name})
  {
    var children' := children + [c];
    assert Names(children') == Names(children) + [c.name];
  }

  /** Once every value is visited, the labels are exactly the values. */
  lemma LabelsDone(children: seq<Node>, values: set<string>)
    requires LabelsSoFar(children, values, {})
    ensures (set c | c in children :: c.name) == values
  {
    forall v | v in values
      ensures v in (set c | c in children :: c.name)
    {
      var i :| 0 <= i < |children| && Names(children)[i] == v;
      assert children[i] in children;
    }
  }

  /** `create_decision_tree(data, attributes, target_attr, max)`. The
      majority value is computed before either stopping test, so an empty
      dataset is outside what the source can handle. */
  method CreateDecisionTree(data: Dataset, attributes: seq<string>, target: nat,
                            score: Score, index: map<string, nat>)
    returns (t: Node)
    requires |data| > 0 && WellFormed(data, attributes, target, index)
    ensures Induced(t, data, attributes, target, score, index)
    decreases |attributes|, 1
  {
    var vals := Column(data, target);
    var default := MajorityValue(data, target);
    if |attributes| - 1 <= 0 {
      NoAttributeLeaf(data, attributes, target, score, index, default);
      return Node(default, []);
    } else if multiset(vals)[vals[0]] == |vals| {
      PureLeaf(data, attributes, target, score, index);
      return Node(vals[0], []);
    }
    CountIsLengthIffAllSame(vals, vals[0]);
    SomeCandidate(attributes, target);
    var best := ChooseAttribute(data, attributes, target, score);
    CandidatesMembers(attributes, target, |attributes|, best);
    var children := SplitOn(data, attributes, target, score, index, best);
    BuildDone(children, data, attributes, best, target, score, index);
    t := Node(best, children);
  }

  /** The loop of `create_decision_tree` over the values of the chosen
      column: one branch node per value, each holding the tree induced from
      the records with that value and the chosen attribute removed. */
  method SplitOn(data: Dataset, attributes: seq<string>, target: nat, score: Score,
                 index: map<string, nat>, best: string)
    returns (children: seq<Node>)
    requires |data| > 0 && WellFormed(data, attributes, target, index) && best in attributes
    ensures Building(children, Values(data, index[best]), {}, data, index[best], attributes, best, target,
                     score, index)
    decreases |attributes|, 0
  {
    var col := index[best];
    var rest := Without(attributes, best);
    var values := Values(data, col);
    children := [];
    var todo := values;
    while todo != {}
      invariant Building(children, values, todo, data, col, attributes, best, target, score, index)
      decreases todo
    {
      var v :| v in todo;
      ExamplesNonEmpty(data, col, v);
      var sub := CreateDecisionTree(Examples(data, col, v), rest, target, score, index);
      BuildStep(children, values, todo, v, sub, data, col, attributes, best, target, score, index);
      children := children + [Node(v, [sub])];
      todo := todo - {v};
    }
  }

  /** With at most one attribute, the leaf holds the majority value. */
  lemma NoAttributeLeaf(data: Dataset, attributes: seq<string>, target: nat, score: Score,
                        index: map<string, nat>, default: string)
    requires |data| > 0 && WellFormed(data, attributes, target, index) && |attributes| <= 1
    requires IsFirstMax(Column(data, target), Frequencies(Column(data, target)), default)
    ensures Induced(Node(default, []), data, attributes, target, score, index)
  {
  }

  /** When the first target value occurs in every record, the leaf holds it. */
  lemma PureLeaf(data: Dataset, attributes: seq<string>, target: nat, score: Score, index: map<string, nat>)
    requires |data| > 0 && WellFormed(data, attributes, target, index) && |attributes| > 1
    requires var vals := Column(data, target); multiset(vals)[vals[0]] == |vals|
    ensures Induced(Node(data[0][target], []), data, attributes, target, score, index)
  {
    var vals := Column(data, target);
    CountIsLengthIffAllSame(vals, vals[0]);
  }

  /** Two attributes leave at least one besides the target. */
  lemma SomeCandidate(attributes: seq<string>, target: nat)
    requires |attributes| > 1
    ensures Candidates(attributes, target) != []
  {
    CandidatesMembers(attributes, target, |attributes|, attributes[if target == 0 then 1 else 0]);
  }

  /** The loop over the values of the chosen column: `children` holds one
      branch node per value visited so far, and `todo` the values left. */
  ghost predicate Building(children: seq<Node>, values: set<string>, todo: set<string>, data: Dataset,
                           col: nat, attributes: seq<string>, best: string, target: nat,
                           score: Score, index: map<string, nat>)
    requires HasColumn(data, col) && WellFormed(data, attributes, target, index) && best in attributes
  {
    && LabelsSoFar(children, values, todo)
    && forall c | c in children :: IsBranch(c, data, col, attributes, best, target, score, index)
  }

  /** The tree induced from the records holding `v` makes a branch node. */
  lemma BuildStep(children: seq<Node>, values: set<string>, todo: set<string>, v: string, sub: Node,
                  data: Dataset, col: nat, attributes: seq<string>, best: string, target: nat,
                  score: Score, index: map<string, nat>)
    requires HasColumn(data, col) && WellFormed(data, attributes, target, index) && best in attributes
    requires Building(children, values, todo, data, col, attributes, best, target, score, index)
    requires v in todo && Examples(data, col, v) != []
    requires WellFormed(Examples(data, col, v), Without(attributes, best), target, index)
    requires Induced(sub, Examples(data, col, v), Without(attributes, best), target, score, index)
    ensures Building(children + [Node(v, [sub])], values, todo - {v}, data, col, attributes, best, target,
                     score, index)
  {
    LabelsStep(children, values, todo, Node(v, [sub]));
    assert IsBranch(Node(v, [sub]), data, col, attributes, best, target, score, index);
  }

  /** Once every value of the chosen column has its branch, the node split
      on the chosen attribute is the induced tree. */
  lemma BuildDone(children: seq<Node>, data: Dataset, attributes: seq<string>, best: string, target: nat,
                  score: Score, index: map<string, nat>)
    requires |data| > 0 && WellFormed(data, attributes, target, index)
    requires |attributes| > 1 && !AllSame(Column(data, target)) && best in attributes
    requires IsFirstMax(Candidates(attributes, target), Gains(data, attributes, target, score, |attributes|), best)
    requires Building(children, Values(data, index[best]), {}, data, index[best], attributes, best, target,
                      score, index)
    ensures Induced(Node(best, children), data, attributes, target, score, index)
  {
    LabelsDone(children, Values(data, index[best]));
    assert IsSplit(Node(best, children), data, attributes, target, score, index);
  }

  // ---------------------------------------------------------------------
  // Properties of induced trees

  /** A split on the first best-scoring candidate is the induced tree of
      records whose target values differ. */
  lemma SplitIsInduced(t: Node, data: Dataset, attributes: seq<string>, target: nat,
                       score: Score, index: map<string, nat>)
    requires |data| > 0 && WellFormed(data, attributes, target, index)
    requires |attributes| > 1 && !AllSame(Column(data, target))
    requires IsFirstMax(Candidates(attributes, target), Gains(data, attributes, target, score, |attributes|), t.name)
    requires t.name in attributes && IsSplit(t, data, attributes, target, score, index)
    ensures Induced(t, data, attributes, target, score, index)
  {
  }

  /** A split node of an induced tree, without the choice of its attribute. */
  lemma SplitFacts(t: Node, data: Dataset, attributes: seq<string>, target: nat,
                   score: Score, index: map<string, nat>)
    requires |data| > 0 && WellFormed(data, attributes, target, index)
    requires |attributes| > 1 && !AllSame(Column(data, target))
    requires Induced(t, data, attributes, target, score, index)
    ensures t.name in attributes && IsSplit(t, data, attributes, target, score, index)
  {
  }

  /** A branch node has one child: the tree induced from its records with
      the split attribute removed, which are a non-empty subset of the
      node's records. */
  lemma BranchFacts(c: Node, data: Dataset, col: nat, attributes: seq<string>, best: string,
                    target: nat, score: Score, index: map<string, nat>)
    requires |data| > 0 && HasColumn(data, col) && WellFormed(data, attributes, target, index)
    requires best in attributes
    requires IsBranch(c, data, col, attributes, best, target, score, index)
    ensures c.children == [c.children[0]]
    ensures |Examples(data, col, c.name)| > 0
    ensures WellFormed(Examples(data, col, c.name), Without(attributes, best), target, index)
    ensures Induced(c.children[0], Examples(data, col, c.name), Without(attributes, best), target, score, index)
    ensures |Without(attributes, best)| < |attributes|
  {
  }

  /** A node with the target column constant is a single leaf labelled with
      that value, whether or not attributes are left. */
  lemma ConstantTargetGivesLeaf(t: Node, data: Dataset, attributes: seq<string>, target: nat,
                                score: Score, index: map<string, nat>)
    requires |data| > 0 && WellFormed(data, attributes, target, index)
    requires AllSame(Column(data, target))
    requires Induced(t, data, attributes, target, score, index)
    ensures t == Node(data[0][target], [])
  {
    var vals := Column(data, target);
    if |attributes| <= 1 {
      var i :| 0 <= i < |vals| && vals[i] == t.name;
    }
  }

  /** At a split, the record sets of the branches, put back together,
      are the node's records: none is lost and none is duplicated. */
  lemma InducedBranchesPartition(t: Node, data: Dataset, attributes: seq<string>, target: nat,
                                 score: Score, index: map<string, nat>)
    requires |data| > 0 && WellFormed(data, attributes, target, index)
    requires |attributes| > 1 && !AllSame(Column(data, target))
    requires Induced(t, data, attributes, target, score, index)
    ensures t.name in index && HasColumn(data, index[t.name])
    ensures multiset(Regroup(data, index[t.name], Names(t.children))) == multiset(data)
  {
    var col := index[t.name];
    var names := Names(t.children);
    forall v
      ensures v in names <==> v in Values(data, col)
    {
      if v in names {
        var i :| 0 <= i < |names| && names[i] == v;
        assert t.children[i] in t.children;
      }
      if v in Values(data, col) {
        var c :| c in t.children && c.name == v;
        var i :| 0 <= i < |t.children| && t.children[i] == c;
        assert names[i] == v;
      }
    }
    PartitionIsLossless(data, col, names);
  }

  /** Every leaf of `t` is labelled with a member of `labels`. */
  ghost predicate LeavesIn(t: Node, labels: set<string>)
    decreases t
  {
    if t.children == [] then t.name in labels
    else forall c | c in t.children :: LeavesIn(c, labels)
  }

  /** A bound on the leaf labels stays a bound when it is widened. */
  lemma {:induction false} LeavesInMono(t: Node, labels: set<string>, labels': set<string>)
    requires LeavesIn(t, labels) && labels <= labels'
    ensures LeavesIn(t, labels')
    decreases t
  {
    forall c | c in t.children
      ensures LeavesIn(c, labels')
    {
      LeavesInMono(c, labels, labels');
    }
  }

  /** The induced tree predicts only classes seen in the training data:
      every leaf label is a value of the target column. */
  lemma {:induction false} InducedLeaves(t: Node, data: Dataset, attributes: seq<string>, target: nat,
                                         score: Score, index: map<string, nat>)
    requires |data| > 0 && WellFormed(data, attributes, target, index)
    requires Induced(t, data, attributes, target, score, index)
    ensures LeavesIn(t, Values(data, target))
    decreases |attributes|, 2
  {
    var vals := Column(data, target);
    if |attributes| <= 1 {
      var i :| 0 <= i < |vals| && vals[i] == t.name;
      assert data[i] in data;
    } else if AllSame(vals) {
      assert data[0] in data;
    } else {
      SplitFacts(t, data, attributes, target, score, index);
      SplitLeaves(t, data, attributes, target, score, index);
    }
  }

  /** The split case of `InducedLeaves`. */
  lemma {:induction false} SplitLeaves(t: Node, data: Dataset, attributes: seq<string>, target: nat,
                                       score: Score, index: map<string, nat>)
    requires |data| > 0 && WellFormed(data, attributes, target, index)
    requires t.name in attributes && IsSplit(t, data, attributes, target, score, index)
    ensures LeavesIn(t, Values(data, target))
    decreases |attributes|, 1
  {
    var col := index[t.name];
    forall c | c in t.children
      ensures LeavesIn(c, Values(data, target))
    {
      BranchLeaves(c, data, col, attributes, t.name, target, score, index);
    }
    assert data[0] in data;
    assert data[0][col] in Values(data, col);
  }

  /** The leaves below a branch node are those of the tree induced from
      the branch's records. */
  lemma {:induction false} BranchLeaves(c: Node, data: Dataset, col: nat, attributes: seq<string>, best: string,
                                        target: nat, score: Score, index: map<string, nat>)
    requires |data| > 0 && HasColumn(data, col) && WellFormed(data, attributes, target, index)
    requires best in attributes
    requires IsBranch(c, data, col, attributes, best, target, score, index)
    ensures LeavesIn(c, Values(data, target))
    decreases |attributes|, 0
  {
    BranchFacts(c, data, col, attributes, best, target, score, index);
    var sub := Examples(data, col, c.name);
    var g := c.children[0];
    InducedLeaves(g, sub, Without(attributes, best), target, score, index);
    ExamplesValues(data, col, c.name, target);
    LeavesInMono(g, Values(sub, target), Values(data, target));
    assert forall c' | c' in c.children :: c' == g;
  }

  /** Some node of `t` that has children is labelled `a`: the tree splits
      on `a` somewhere (the branch nodes that label the edges are passed
      over). */
  ghost predicate SplitsOn(t: Node, a: string)
    decreases t
  {
    && t.children != []
    && (t.name == a || exists c, g | c in t.children && g in c.children :: SplitsOn(g, a))
  }

  /** Every split of an induced tree is on one of the given attributes. */
  lemma {:induction false} InducedSplitsOnAttributes(t: Node, data: Dataset, attributes: seq<string>,
                                                     target: nat, score: Score, index: map<string, nat>)
    requires |data| > 0 && WellFormed(data, attributes, target, index)
    requires Induced(t, data, attributes, target, score, index)
    ensures forall a | SplitsOn(t, a) :: a in attributes
    decreases |attributes|, 2
  {
    if |attributes| > 1 && !AllSame(Column(data, target)) {
      SplitFacts(t, data, attributes, target, score, index);
      SplitSplits(t, data, attributes, target, score, index);
    }
  }

  /** The split case of `InducedSplitsOnAttributes`. */
  lemma {:induction false} SplitSplits(t: Node, data: Dataset, attributes: seq<string>,
                                       target: nat, score: Score, index: map<string, nat>)
    requires |data| > 0 && WellFormed(data, attributes, target, index)
    requires t.name in attributes && IsSplit(t, data, attributes, target, score, index)
    ensures forall a | SplitsOn(t, a) :: a in attributes
    decreases |attributes|, 1
  {
    forall c | c in t.children
      ensures forall g, a | g in c.children && SplitsOn(g, a) :: a in attributes
    {
      BranchSplits(c, data, index[t.name], attributes, t.name, target, score, index);
    }
  }

  /** Below a branch node of a split on `best`, every split is on one of the
      attributes other than `best`. */
  lemma {:induction false} BranchSplits(c: Node, data: Dataset, col: nat, attributes: seq<string>, best: string,
                                        target: nat, score: Score, index: map<string, nat>)
    requires |data| > 0 && HasColumn(data, col) && WellFormed(data, attributes, target, index)
    requires best in attributes
    requires IsBranch(c, data, col, attributes, best, target, score, index)
    ensures forall g, a | g in c.children && SplitsOn(g, a) :: a in attributes && a != best
    decreases |attributes|, 0
  {
    BranchFacts(c, data, col, attributes, best, target, score, index);
    var g := c.children[0];
    InducedSplitsOnAttributes(g, Examples(data, col, c.name), Without(attributes, best), target, score, index);
    assert forall g' | g' in c.children :: g' == g;
  }

  /** No attribute is split on twice along a path: below a split on `a`,
      no node splits on `a` again. */
  ghost predicate NoRepeatedSplit(t: Node)
    decreases t
  {
    forall c, g | c in t.children && g in c.children :: !SplitsOn(g, t.name) && NoRepeatedSplit(g)
  }

  /** Induced trees never split twice on one attribute along a path, because
      the chosen attribute is removed before recursing. */
  lemma {:induction false} InducedNoRepeatedSplit(t: Node, data: Dataset, attributes: seq<string>,
                                                  target: nat, score: Score, index: map<string, nat>)
    requires |data| > 0 && WellFormed(data, attributes, target, index)
    requires Induced(t, data, attributes, target, score, index)
    ensures NoRepeatedSplit(t)
    decreases |attributes|, 2
  {
    if |attributes| > 1 && !AllSame(Column(data, target)) {
      SplitFacts(t, data, attributes, target, score, index);
      SplitNoRepeat(t, data, attributes, target, score, index);
    }
  }

  /** The split case of `InducedNoRepeatedSplit`. */
  lemma {:induction false} SplitNoRepeat(t: Node, data: Dataset, attributes: seq<string>,
                                         target: nat, score: Score, index: map<string, nat>)
    requires |data| > 0 && WellFormed(data, attributes, target, index)
    requires t.name in attributes && IsSplit(t, data, attributes, target, score, index)
    ensures NoRepeatedSplit(t)
    decreases |attributes|, 1
  {
    forall c | c in t.children
      ensures forall g | g in c.children :: !SplitsOn(g, t.name) && NoRepeatedSplit(g)
    {
      BranchNoRepeat(c, data, index[t.name], attributes, t.name, target, score, index);
    }
  }

  /** Below a branch node of a split on `best`, `best` is never split on
      again and no path repeats a split. */
  lemma {:induction false} BranchNoRepeat(c: Node, data: Dataset, col: nat, attributes: seq<string>, best: string,
                                          target: nat, score: Score, index: map<string, nat>)
    requires |data| > 0 && HasColumn(data, col) && WellFormed(data, attributes, target, index)
    requires best in attributes
    requires IsBranch(c, data, col, attributes, best, target, score, index)
    ensures forall g | g in c.children :: !SplitsOn(g, best) && NoRepeatedSplit(g)
    decreases |attributes|, 0
  {
    BranchFacts(c, data, col, attributes, best, target, score, index);
    BranchSplits(c, data, col, attributes, best, target, score, index);
    var g := c.children[0];
    InducedNoRepeatedSplit(g, Examples(data, col, c.name), Without(attributes, best), target, score, index);
    assert forall g' | g' in c.children :: g' == g;
  }

  /** Each split uses up an attribute and adds two levels (the split node
      and the branch node), so a tree induced with `n` attributes, the
      target among them, has paths of at most `2 * n - 1` nodes. */
  lemma {:induction false} InducedHeight(t: Node, data: Dataset, attributes: seq<string>, target: nat,
                                         score: Score, index: map<string, nat>)
    requires |data| > 0 && WellFormed(data, attributes, target, index)
    requires Induced(t, data, attributes, target, score, index)
    ensures HeightAtMost(t, if |attributes| <= 1 then 1 else 2 * |attributes| - 1)
    decreases |attributes|, 2
  {
    if |attributes| > 1 && !AllSame(Column(data, target)) {
      SplitFacts(t, data, attributes, target, score, index);
      SplitHeight(t, data, attributes, target, score, index);
    }
  }

  /** The split case of `InducedHeight`. */
  lemma {:induction false} SplitHeight(t: Node, data: Dataset, attributes: seq<string>, target: nat,
                                       score: Score, index: map<string, nat>)
    requires |data| > 0 && WellFormed(data, attributes, target, index)
    requires |attributes| > 1 && t.name in attributes && IsSplit(t, data, attributes, target, score, index)
    ensures HeightAtMost(t, 2 * |attributes| - 1)
    decreases |attributes|, 1
  {
    var col := index[t.name];
    forall c | c in t.children
      ensures HeightAtMost(c, 2 * |attributes| - 2)
    {
      BranchHeight(c, data, col, attributes, t.name, target, score, index);
    }
  }

  /** A branch node below a split on `best` adds one level to the tree
      induced without `best`. */
  lemma {:induction false} BranchHeight(c: Node, data: Dataset, col: nat, attributes: seq<string>, best: string,
                                        target: nat, score: Score, index: map<string, nat>)
    requires |data| > 0 && HasColumn(data, col) && WellFormed(data, attributes, target, index)
    requires |attributes| > 1 && best in attributes
    requires IsBranch(c, data, col, attributes, best, target, score, index)
    ensures HeightAtMost(c, 2 * |attributes| - 2)
    decreases |attributes|, 0
  {
    BranchFacts(c, data, col, attributes, best, target, score, index);
    var rest := Without(attributes, best);
    var g := c.children[0];
    InducedHeight(g, Examples(data, col, c.name), rest, target, score, index);
    HeightAtMostMono(g, if |rest| <= 1 then 1 else 2 * |rest| - 1, 2 * |attributes| - 3);
  }
}
