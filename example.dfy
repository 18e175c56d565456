/** A worked induction: four weather records, target `play`.

      play  outlook  temp
      yes   sunny    hot
      no    sunny    hot
      yes   rain     mild
      yes   rain     mild

    `outlook` and `temp` split the records the same way, so their gains are
    equal and the tie goes to `outlook`, the earlier name. The rain records
    all say `yes`, so that branch is a leaf; the sunny records disagree and
    are split again on `temp`, whose only value `hot` leaves one attribute,
    the target, and so a leaf with the first of the tied majority values.
 */
module Weather {
  import opened Table
  import opened Selection
  import opened Tree
  import opened Induction

  const Header: seq<string> := ["play", "outlook", "temp"]
  const Index: map<string, nat> := map["play" := 0, "outlook" := 1, "temp" := 2]

  const Sunny1: Record := ["yes", "sunny", "hot"]
  const Sunny2: Record := ["no", "sunny", "hot"]
  const Rain: Record := ["yes", "rain", "mild"]

  const Rows: Dataset := [Sunny1, Sunny2, Rain, Rain]
  const SunnyRows: Dataset := [Sunny1, Sunny2]
  const RainRows: Dataset := [Rain, Rain]

  const Leaf: Node := Node("yes", [])
  const SunnyTree: Node := Node("temp", [Node("hot", [Leaf])])
  const Expected: Node := Node("outlook", [Node("sunny", [SunnyTree]), Node("rain", [Leaf])])

  lemma RowsHaveColumns()
    ensures HasColumn(Rows, 0) && HasColumn(Rows, 1) && HasColumn(Rows, 2)
    ensures HasColumn(SunnyRows, 0) && HasColumn(SunnyRows, 2)
  {
  }

  lemma SunnyExamples()
    ensures HasColumn(Rows, 1)
    ensures Examples(Rows, 1, "sunny") == SunnyRows
  {
    RowsHaveColumns();
    var tail := [Rain, Rain];
    assert Rows[1..][1..] == tail && tail[1..] == [Rain] && tail[1..][1..] == [];
    assert Examples(tail, 1, "sunny") == [];
    assert Examples(Rows[1..], 1, "sunny") == [Sunny2];
  }

  lemma RainExamples()
    ensures HasColumn(Rows, 1)
    ensures Examples(Rows, 1, "rain") == RainRows
  {
    RowsHaveColumns();
    var tail := [Rain, Rain];
    assert Rows[1..][1..] == tail && tail[1..] == [Rain] && tail[1..][1..] == [];
    assert Examples(tail, 1, "rain") == RainRows;
    assert Examples(Rows[1..], 1, "rain") == RainRows;
  }

  lemma HotExamples()
    ensures HasColumn(SunnyRows, 2)
    ensures Examples(SunnyRows, 2, "hot") == SunnyRows
  {
    RowsHaveColumns();
    assert SunnyRows[1..] == [Sunny2] && SunnyRows[1..][1..] == [];
    assert Examples(SunnyRows[1..], 2, "hot") == [Sunny2];
  }

  lemma OutlookValues()
    ensures HasColumn(Rows, 1)
    ensures Values(Rows, 1) == {"sunny", "rain"}
  {
    RowsHaveColumns();
    assert Rows[0] in Rows && Rows[2] in Rows;
  }

  lemma TempValues()
    ensures HasColumn(SunnyRows, 2)
    ensures Values(SunnyRows, 2) == {"hot"}
  {
    RowsHaveColumns();
    assert SunnyRows[0] in SunnyRows;
  }

  lemma NamesOfOne(t: Node, c: Node)
    requires t.children == [c]
    ensures (set x | x in t.children :: x.name) == {c.name}
  {
  }

  lemma NamesOfTwo(t: Node, c: Node, d: Node)
    requires t.children == [c, d]
    ensures (set x | x in t.children :: x.name) == {c.name, d.name}
    ensures c.name != d.name ==>
              forall i, j | 0 <= i < j < |t.children| :: t.children[i].name != t.children[j].name
  {
    assert c in t.children && d in t.children;
  }

  /** A split with a single branch. */
  lemma SplitOfOne(t: Node, c: Node, data: Dataset, attributes: seq<string>, target: nat,
                   score: Score, index: map<string, nat>)
    requires WellFormed(data, attributes, target, index) && t.name in attributes
    requires t.children == [c] && Values(data, index[t.name]) == {c.name}
    requires IsBranch(c, data, index[t.name], attributes, t.name, target, score, index)
    ensures IsSplit(t, data, attributes, target, score, index)
  {
    NamesOfOne(t, c);
  }

  /** A split with two branches. */
  lemma SplitOfTwo(t: Node, c: Node, d: Node, data: Dataset, attributes: seq<string>, target: nat,
                   score: Score, index: map<string, nat>)
    requires WellFormed(data, attributes, target, index) && t.name in attributes
    requires t.children == [c, d] && c.name != d.name && Values(data, index[t.name]) == {c.name, d.name}
    requires IsBranch(c, data, index[t.name], attributes, t.name, target, score, index)
    requires IsBranch(d, data, index[t.name], attributes, t.name, target, score, index)
    ensures IsSplit(t, data, attributes, target, score, index)
  {
    NamesOfTwo(t, c, d);
    BranchesOfTwo(t, c, d, data, attributes, target, score, index);
  }

  lemma BranchesOfTwo(t: Node, c: Node, d: Node, data: Dataset, attributes: seq<string>, target: nat,
                      score: Score, index: map<string, nat>)
    requires WellFormed(data, attributes, target, index) && t.name in attributes
    requires t.children == [c, d]
    requires IsBranch(c, data, index[t.name], attributes, t.name, target, score, index)
    requires IsBranch(d, data, index[t.name], attributes, t.name, target, score, index)
    ensures forall x | x in t.children :: IsBranch(x, data, index[t.name], attributes, t.name, target, score, index)
  {
  }

  /** The rain branch: every record says `yes`. */
  lemma RainIsLeaf(score: Score)
    ensures WellFormed(RainRows, ["play", "temp"], 0, Index)
    ensures Induced(Leaf, RainRows, ["play", "temp"], 0, score, Index)
  {
    assert Column(RainRows, 0) == ["yes", "yes"];
  }

  /** Below `sunny` and `hot` only the target is left: the leaf is the first
      of the tied values `yes` and `no`. */
  lemma HotIsLeaf(score: Score)
    ensures WellFormed(SunnyRows, ["play"], 0, Index)
    ensures Induced(Leaf, SunnyRows, ["play"], 0, score, Index)
  {
    var vals := Column(SunnyRows, 0);
    assert vals == ["yes", "no"];
    assert vals[1..] == ["no"];
    assert Frequencies(vals) == map["yes" := 1, "no" := 1] by {
      assert multiset(vals) == multiset{"yes", "no"};
    }
    assert FirstIndex(vals, "yes") == 0;
  }

  /** Under `sunny` the only candidate left is `temp`. */
  lemma TempIsChosen(score: Score)
    ensures IsFirstMax(Candidates(["play", "temp"], 0), Gains(SunnyRows, ["play", "temp"], 0, score, 2), "temp")
  {
    var attributes := ["play", "temp"];
    assert CandidatesUpTo(attributes, 0, 1) == [];
    assert Candidates(attributes, 0) == ["temp"];
    assert "temp" in Gains(SunnyRows, attributes, 0, score, 2);
  }

  /** The branch for `hot` holds both sunny records and a leaf. */
  lemma HotBranch(score: Score)
    ensures WellFormed(SunnyRows, ["play", "temp"], 0, Index)
    ensures IsBranch(Node("hot", [Leaf]), SunnyRows, 2, ["play", "temp"], "temp", 0, score, Index)
  {
    var attributes := ["play", "temp"];
    HotExamples();
    HotIsLeaf(score);
    assert Without(attributes, "temp") == ["play"] by {
      assert attributes[1..] == ["temp"];
      assert attributes[1..][1..] == [];
    }
  }

  /** The sunny records take the single value `hot` of `temp`. */
  lemma SunnySplit(score: Score)
    ensures WellFormed(SunnyRows, ["play", "temp"], 0, Index)
    ensures IsSplit(SunnyTree, SunnyRows, ["play", "temp"], 0, score, Index)
  {
    TempValues();
    HotBranch(score);
    SplitOfOne(SunnyTree, Node("hot", [Leaf]), SunnyRows, ["play", "temp"], 0, score, Index);
  }

  /** The sunny records disagree, so they are split on `temp`, the only
      candidate left. */
  lemma SunnySplitsOnTemp(score: Score)
    ensures WellFormed(SunnyRows, ["play", "temp"], 0, Index)
    ensures Induced(SunnyTree, SunnyRows, ["play", "temp"], 0, score, Index)
  {
    TempIsChosen(score);
    SunnySplit(score);
    SunnyMixed();
    SplitIsInduced(SunnyTree, SunnyRows, ["play", "temp"], 0, score, Index);
  }

  /** The sunny records disagree on `play`. */
  lemma SunnyMixed()
    ensures HasColumn(SunnyRows, 0) && !AllSame(Column(SunnyRows, 0))
  {
    RowsHaveColumns();
    assert Column(SunnyRows, 0)[1] == "no";
  }

  /** `outlook` and `temp` are the root's candidates, in that order, and
      with equal scores the first of them is chosen. */
  lemma OutlookIsChosen(score: Score)
    requires score(Rows, 1, 0) == score(Rows, 2, 0)
    ensures IsFirstMax(Candidates(Header, 0), Gains(Rows, Header, 0, score, 3), "outlook")
  {
    assert CandidatesUpTo(Header, 0, 1) == [];
    assert CandidatesUpTo(Header, 0, 2) == ["outlook"];
    var cands := Candidates(Header, 0);
    assert cands == ["outlook", "temp"];
    assert LastPos(Header, 0, "outlook", 3) == 1;
    assert LastPos(Header, 0, "temp", 3) == 2;
    var gains := Gains(Rows, Header, 0, score, 3);
    assert gains["outlook"] == score(Rows, 1, 0) && gains["temp"] == score(Rows, 2, 0);
    assert FirstIndex(cands, "outlook") == 0;
  }

  lemma OutlookWithout()
    ensures Without(Header, "outlook") == ["play", "temp"]
  {
    assert Header[1..] == ["outlook", "temp"];
    assert Header[1..][1..] == ["temp"];
    assert Header[1..][1..][1..] == [];
  }

  lemma RowsWellFormed()
    ensures WellFormed(Rows, Header, 0, Index)
  {
    RowsHaveColumns();
  }

  lemma SunnyBranch(score: Score)
    ensures WellFormed(Rows, Header, 0, Index)
    ensures IsBranch(Node("sunny", [SunnyTree]), Rows, 1, Header, "outlook", 0, score, Index)
  {
    RowsWellFormed();
    SunnyExamples();
    OutlookWithout();
    SunnySplitsOnTemp(score);
  }

  lemma RainBranch(score: Score)
    ensures WellFormed(Rows, Header, 0, Index)
    ensures IsBranch(Node("rain", [Leaf]), Rows, 1, Header, "outlook", 0, score, Index)
  {
    RowsHaveColumns();
    RainExamples();
    OutlookWithout();
    RainIsLeaf(score);
  }

  /** The records take the values `sunny` and `rain` of `outlook`. */
  lemma RootSplit(score: Score)
    ensures WellFormed(Rows, Header, 0, Index)
    ensures IsSplit(Expected, Rows, Header, 0, score, Index)
  {
    OutlookValues();
    SunnyBranch(score);
    RainBranch(score);
    SplitOfTwo(Expected, Node("sunny", [SunnyTree]), Node("rain", [Leaf]), Rows, Header, 0, score, Index);
  }

  /** With `outlook` and `temp` scoring alike at the root (as their gains do,
      both splitting the records into the same two groups), the tree is
      rooted at `outlook`, with a leaf under `rain` and a split on `temp`
      under `sunny`. */
  lemma WeatherTree(score: Score)
    requires score(Rows, 1, 0) == score(Rows, 2, 0)
    ensures WellFormed(Rows, Header, 0, Index)
    ensures Induced(Expected, Rows, Header, 0, score, Index)
  {
    OutlookIsChosen(score);
    RootSplit(score);
    RowsMixed();
    SplitIsInduced(Expected, Rows, Header, 0, score, Index);
  }

  /** The records disagree on `play`. */
  lemma RowsMixed()
    ensures HasColumn(Rows, 0) && !AllSame(Column(Rows, 0))
  {
    RowsHaveColumns();
    assert Column(Rows, 0)[1] == "no";
  }

  // ---------------------------------------------------------------------
  // No other tree is induced

  /** Children with pairwise different names, all drawn from `names`, are
      no more than there are names. */
  lemma {:induction false} FewNames(cs: seq<Node>, names: set<string>)
    requires forall c | c in cs :: c.name in names
    requires forall i, j | 0 <= i < j < |cs| :: cs[i].name != cs[j].name
    ensures |cs| <= |names|
  {
    if cs != [] {
      var rest, x := cs[1..], cs[0].name;
      forall c | c in rest
        ensures c.name in names - {x}
      {
        var k :| 0 <= k < |rest| && rest[k] == c;
        assert cs[k + 1] == c;
      }
      assert forall i, j | 0 <= i < j < |rest| :: rest[i].name != rest[j].name by {
        forall i, j | 0 <= i < j < |rest|
          ensures rest[i].name != rest[j].name
        {
          assert rest[i] == cs[i + 1] && rest[j] == cs[j + 1];
        }
      }
      FewNames(rest, names - {x});
      assert names == (names - {x}) + {x};
    }
  }

  /** A split whose column takes one value has one branch, for that value. */
  lemma OnlyChild(t: Node, v: string)
    requires (set c | c in t.children :: c.name) == {v}
    requires forall i, j | 0 <= i < j < |t.children| :: t.children[i].name != t.children[j].name
    ensures |t.children| == 1 && t.children[0].name == v
  {
    var names := set c | c in t.children :: c.name;
    FewNames(t.children, names);
    assert v in names;
    assert t.children[0].name in names;
  }

  /** A split whose column takes two values has two branches, one for each,
      in either order. */
  lemma TwoChildren(t: Node, v: string, w: string)
    requires v != w && (set c | c in t.children :: c.name) == {v, w}
    requires forall i, j | 0 <= i < j < |t.children| :: t.children[i].name != t.children[j].name
    ensures |t.children| == 2
    ensures (t.children[0].name == v && t.children[1].name == w) || (t.children[0].name == w && t.children[1].name == v)
  {
    var names := set c | c in t.children :: c.name;
    FewNames(t.children, names);
    assert v in names && w in names;
    var i :| 0 <= i < |t.children| && t.children[i].name == v;
    var j :| 0 <= j < |t.children| && t.children[j].name == w;
    assert t.children[0] in t.children && t.children[1] in t.children;
  }

  /** The rain records all say `yes`. */
  lemma RainSame()
    ensures HasColumn(RainRows, 0) && AllSame(Column(RainRows, 0)) && RainRows[0][0] == "yes"
  {
    assert Column(RainRows, 0) == ["yes", "yes"];
  }

  /** The only tree induced from the rain records is the leaf `yes`. */
  lemma RainUnique(t: Node, score: Score)
    requires WellFormed(RainRows, ["play", "temp"], 0, Index)
    requires Induced(t, RainRows, ["play", "temp"], 0, score, Index)
    ensures t == Leaf
  {
    RainSame();
    ConstantTargetGivesLeaf(t, RainRows, ["play", "temp"], 0, score, Index);
  }

  /** The only tree induced from the sunny records with no attribute but the
      target is the leaf `yes`: the tie-break picks it over `no`. */
  lemma HotLeafUnique(t: Node, score: Score)
    requires WellFormed(SunnyRows, ["play"], 0, Index)
    requires Induced(t, SunnyRows, ["play"], 0, score, Index)
    ensures t == Leaf
  {
    HotIsLeaf(score);
    var vals := Column(SunnyRows, 0);
    FirstMaxUnique(vals, Frequencies(vals), t.name, Leaf.name);
  }

  /** The only branch for `hot` under `temp` is a node holding the leaf. */
  lemma HotNodeUnique(c: Node, score: Score)
    requires WellFormed(SunnyRows, ["play", "temp"], 0, Index) && HasColumn(SunnyRows, 2)
    requires IsBranch(c, SunnyRows, 2, ["play", "temp"], "temp", 0, score, Index) && c.name == "hot"
    ensures c == Node("hot", [Leaf])
  {
    var attributes := ["play", "temp"];
    BranchFacts(c, SunnyRows, 2, attributes, "temp", 0, score, Index);
    HotExamples();
    assert Without(attributes, "temp") == ["play"] by {
      assert attributes[1..] == ["temp"];
      assert attributes[1..][1..] == [];
    }
    HotLeafUnique(c.children[0], score);
  }

  /** The root of any tree induced from the sunny records splits on `temp`
      into a single `hot` branch. */
  lemma SunnyRootUnique(t: Node, score: Score)
    requires WellFormed(SunnyRows, ["play", "temp"], 0, Index)
    requires Induced(t, SunnyRows, ["play", "temp"], 0, score, Index)
    ensures t.name == "temp" && |t.children| == 1 && t.children[0].name == "hot"
    ensures HasColumn(SunnyRows, 2)
    ensures IsBranch(t.children[0], SunnyRows, 2, ["play", "temp"], "temp", 0, score, Index)
  {
    var attributes := ["play", "temp"];
    SunnyMixed();
    SplitFacts(t, SunnyRows, attributes, 0, score, Index);
    TempIsChosen(score);
    FirstMaxUnique(Candidates(attributes, 0), Gains(SunnyRows, attributes, 0, score, 2), t.name, "temp");
    TempValues();
    OnlyChild(t, "hot");
    assert t.children[0] in t.children;
  }

  /** The only tree induced from the sunny records is the `temp` split. */
  lemma SunnyTreeUnique(t: Node, score: Score)
    requires WellFormed(SunnyRows, ["play", "temp"], 0, Index)
    requires Induced(t, SunnyRows, ["play", "temp"], 0, score, Index)
    ensures t == SunnyTree
  {
    SunnyRootUnique(t, score);
    HotNodeUnique(t.children[0], score);
    OneChildTree(t, Node("hot", [Leaf]));
  }

  /** A node is determined by its name and its children. */
  lemma OneChildTree(t: Node, c: Node)
    requires |t.children| == 1 && t.children[0] == c
    ensures t == Node(t.name, [c])
  {
    assert t.children == [c];
  }

  lemma TwoChildTree(t: Node, c: Node, d: Node)
    requires |t.children| == 2 && t.children[0] == c && t.children[1] == d
    ensures t == Node(t.name, [c, d])
  {
    assert t.children == [c, d];
  }

  /** The only branch for `sunny` under `outlook` holds the `temp` split. */
  lemma SunnyNodeUnique(c: Node, score: Score)
    requires WellFormed(Rows, Header, 0, Index) && HasColumn(Rows, 1)
    requires IsBranch(c, Rows, 1, Header, "outlook", 0, score, Index) && c.name == "sunny"
    ensures c == Node("sunny", [SunnyTree])
  {
    BranchFacts(c, Rows, 1, Header, "outlook", 0, score, Index);
    SunnyExamples();
    OutlookWithout();
    SunnyTreeUnique(c.children[0], score);
  }

  /** The only branch for `rain` under `outlook` holds the leaf. */
  lemma RainNodeUnique(c: Node, score: Score)
    requires WellFormed(Rows, Header, 0, Index) && HasColumn(Rows, 1)
    requires IsBranch(c, Rows, 1, Header, "outlook", 0, score, Index) && c.name == "rain"
    ensures c == Node("rain", [Leaf])
  {
    BranchFacts(c, Rows, 1, Header, "outlook", 0, score, Index);
    RainExamples();
    OutlookWithout();
    RainUnique(c.children[0], score);
  }

  /** The root of any tree induced from the records, under the tie, splits
      on `outlook` into a `sunny` and a `rain` branch. */
  lemma RootUnique(t: Node, score: Score)
    requires score(Rows, 1, 0) == score(Rows, 2, 0)
    requires WellFormed(Rows, Header, 0, Index)
    requires Induced(t, Rows, Header, 0, score, Index)
    ensures t.name == "outlook" && |t.children| == 2 && HasColumn(Rows, 1)
    ensures IsBranch(t.children[0], Rows, 1, Header, "outlook", 0, score, Index)
    ensures IsBranch(t.children[1], Rows, 1, Header, "outlook", 0, score, Index)
    ensures (t.children[0].name == "sunny" && t.children[1].name == "rain")
         || (t.children[0].name == "rain" && t.children[1].name == "sunny")
  {
    RowsMixed();
    SplitFacts(t, Rows, Header, 0, score, Index);
    OutlookIsChosen(score);
    FirstMaxUnique(Candidates(Header, 0), Gains(Rows, Header, 0, score, 3), t.name, "outlook");
    OutlookValues();
    TwoChildren(t, "sunny", "rain");
    assert t.children[0] in t.children && t.children[1] in t.children;
  }

  /** Conversely, under the tie every tree induced from the records is the
      expected one, up to the order of the root's two branches. */
  lemma WeatherTreeUnique(t: Node, score: Score)
    requires score(Rows, 1, 0) == score(Rows, 2, 0)
    requires WellFormed(Rows, Header, 0, Index)
    requires Induced(t, Rows, Header, 0, score, Index)
    ensures t == Expected || t == Node("outlook", [Node("rain", [Leaf]), Node("sunny", [SunnyTree])])
  {
    RootUnique(t, score);
    BranchesUnique(t, score);
  }

  /** A root on `outlook` with a `sunny` and a `rain` branch, in either
      order, is one of the two expected trees. */
  lemma BranchesUnique(t: Node, score: Score)
    requires WellFormed(Rows, Header, 0, Index) && HasColumn(Rows, 1)
    requires t.name == "outlook" && |t.children| == 2
    requires IsBranch(t.children[0], Rows, 1, Header, "outlook", 0, score, Index)
    requires IsBranch(t.children[1], Rows, 1, Header, "outlook", 0, score, Index)
    requires (t.children[0].name == "sunny" && t.children[1].name == "rain")
          || (t.children[0].name == "rain" && t.children[1].name == "sunny")
    ensures t == Expected || t == Node("outlook", [Node("rain", [Leaf]), Node("sunny", [SunnyTree])])
  {
    var c, d := t.children[0], t.children[1];
    if c.name == "sunny" {
      SunnyNodeUnique(c, score);
      RainNodeUnique(d, score);
    } else {
      RainNodeUnique(c, score);
      SunnyNodeUnique(d, score);
    }
    TwoChildTree(t, c, d);
  }
}
