/** Picking one key out of a frequency or gain table.

    Both `majority_value` and `choose_attribute` fill a Python dict in a loop
    and hand it to `max(d, key=d.get)`. A dict lists its keys in insertion
    order, and `max` returns the first key whose value is maximal, so both
    tie-breaks are "the candidate that was met first".
 */
module Selection {
  import opened Table

  /** `m` is the first maximum of `key` over `s`: it occurs in `s`, no element
      of `s` has a larger value, and every element with the same value first
      occurs no earlier than `m`. */
  ghost predicate IsFirstMax<T>(s: seq<T>, key: map<T, int>, m: T)
    ensures IsFirstMax(s, key, m) ==>
              && m in s && m in key
              && forall x | x in s && x != m && x in key && key[x] == key[m] :: FirstIndex(s, m) < FirstIndex(s, x)
  {
    && m in s
    && (forall x | x in s :: x in key)
    && (forall x | x in s :: key[x] <= key[m])
    && (forall x | x in s && key[x] == key[m] :: FirstIndex(s, m) <= FirstIndex(s, x))
  }

  /** The tie-break leaves no choice: the first maximum is unique. */
  lemma FirstMaxUnique<T>(s: seq<T>, key: map<T, int>, m1: T, m2: T)
    requires IsFirstMax(s, key, m1) && IsFirstMax(s, key, m2)
    ensures m1 == m2
  {
    assert key[m1] == key[m2];
    assert s[FirstIndex(s, m1)] == m1 && s[FirstIndex(s, m2)] == m2;
  }

  /** Python's `max(d, key=d.get)` over a dict whose keys, in insertion order,
      are `keys`: the position of the first key whose value is maximal. The
      built-in keeps its current answer unless a later key is strictly larger. */
  method FirstArgMax<K>(keys: seq<K>, d: map<K, int>) returns (b: nat)
    requires |keys| > 0
    requires forall k | k in keys :: k in d
    ensures b < |keys|
    ensures forall j | 0 <= j < |keys| :: d[keys[j]] <= d[keys[b]]
    ensures forall j | 0 <= j < b :: d[keys[j]] < d[keys[b]]
  {
    b := 0;
    for j := 1 to |keys|
      invariant b < j
      invariant forall i | 0 <= i < j :: d[keys[i]] <= d[keys[b]]
      invariant forall i | 0 <= i < b :: d[keys[i]] < d[keys[b]]
    {
      if d[keys[j]] > d[keys[b]] {
        b := j;
      }
    }
  }

  /** A first maximum over the keys of a dict filled by scanning `s` is the
      first maximum over `s` itself. */
  lemma FirstArgMaxOverDistinct<T(!new)>(s: seq<T>, keys: seq<T>, d: map<T, int>, b: nat)
    requires keys == Distinct(s)
    requires forall x | x in s :: x in d
    requires b < |keys|
    requires forall j | 0 <= j < |keys| :: d[keys[j]] <= d[keys[b]]
    requires forall j | 0 <= j < b :: d[keys[j]] < d[keys[b]]
    ensures IsFirstMax(s, d, keys[b])
  {
    var m := keys[b];
    forall x | x in s
      ensures d[x] <= d[m]
      ensures d[x] == d[m] ==> FirstIndex(s, m) <= FirstIndex(s, x)
    {
      assert x in keys;
      var j :| 0 <= j < |keys| && keys[j] == x;
      if d[x] == d[m] && j != b {
        DistinctInOrder(s, b, j);
      }
    }
  }

  // ---------------------------------------------------------------------
  // majority_value

  /** How often each value occurs in `vals`: the dict `val_freq` once filled. */
  function Frequencies(vals: seq<string>): (freq: map<string, int>)
    ensures freq == map[] <==> vals == []
    ensures vals != [] ==> vals[0] in freq && 1 <= freq[vals[0]] <= |vals|
  {
    map v | v in vals :: multiset(vals)[v]
  }

  /** Scanning one more element adds it to the dict's keys if it is new. */
  lemma DistinctSnoc<T(!new)>(s: seq<T>, v: T)
    ensures Distinct(s + [v]) == if v in s then Distinct(s) else Distinct(s) + [v]
  {
    assert (s + [v])[..|s|] == s;
    if v in s {
      var i :| 0 <= i < |s| && s[i] == v;
      assert v in Distinct(s);
    } else {
      assert v !in Distinct(s);
    }
  }

  /** Counting one more value increments its count, or sets it to 1. */
  lemma FrequenciesSnoc(s: seq<string>, v: string)
    ensures v in Frequencies(s) <==> v in s
    ensures Frequencies(s + [v]) == Frequencies(s)[v := if v in s then Frequencies(s)[v] + 1 else 1]
  {
    var f, g := Frequencies(s), Frequencies(s + [v]);
    var h := f[v := if v in s then f[v] + 1 else 1];
    assert multiset(s + [v]) == multiset(s) + multiset{v};
    assert forall x :: x in g <==> x in h;
    forall x | x in g
      ensures g[x] == h[x]
    {
    }
  }

  /** `keys` (the dict's keys in insertion order) and `freq` are what the
      counting loop of `majority_value` has built after the first `i` values. */
  ghost predicate CountedUpTo(vals: seq<string>, i: nat, keys: seq<string>, freq: map<string, int>)
  {
    i <= |vals| && keys == Distinct(vals[..i]) && freq == Frequencies(vals[..i])
  }

  /** One turn of the counting loop: the value at position `i` is counted,
      and becomes a new key if it was not one. */
  lemma CountStep(vals: seq<string>, i: nat, keys: seq<string>, freq: map<string, int>)
    requires i < |vals| && CountedUpTo(vals, i, keys, freq)
    ensures var v := vals[i];
            CountedUpTo(vals, i + 1, if v in freq then keys else keys + [v],
                        freq[v := if v in freq then freq[v] + 1 else 1])
  {
    var s, v := vals[..i], vals[i];
    assert vals[..i + 1] == s + [v];
    DistinctSnoc(s, v);
    FrequenciesSnoc(s, v);
  }

  /** Once every value is counted, each key has a count and there is a key. */
  lemma CountDone(vals: seq<string>, keys: seq<string>, freq: map<string, int>)
    requires |vals| > 0 && CountedUpTo(vals, |vals|, keys, freq)
    ensures keys == Distinct(vals) && freq == Frequencies(vals)
    ensures |keys| > 0
    ensures forall k | k in keys :: k in freq
    ensures forall x | x in vals :: x in freq
  {
    assert vals[..|vals|] == vals;
    assert vals[0] in keys;
  }

  /** `majority_value(data, target_attr)`: the most frequent value of the
      target column; among equally frequent values, the one whose first
      occurrence comes first. An empty dataset makes `max` raise, so the
      source never returns on it. */
  method MajorityValue(data: Dataset, target: nat) returns (m: string)
    requires |data| > 0 && HasColumn(data, target)
    ensures IsFirstMax(Column(data, target), Frequencies(Column(data, target)), m)
  {
    ghost var vals := Column(data, target);
    var keys: seq<string> := [];
    var freq: map<string, int> := map[];
    for i := 0 to |data|
      invariant CountedUpTo(vals, i, keys, freq)
    {
      var v := data[i][target];
      CountStep(vals, i, keys, freq);
      if v in freq {
        freq := freq[v := freq[v] + 1];
      } else {
        freq := freq[v := 1];
        keys := keys + [v];
      }
    }
    CountDone(vals, keys, freq);
    var b := FirstArgMax(keys, freq);
    m := keys[b];
    FirstArgMaxOverDistinct(vals, keys, freq, b);
  }

  // ---------------------------------------------------------------------
  // choose_attribute

  /** The attribute score, standing for `gain(data, attr, target_attr)`: it is
      given the dataset, the position `attr` of a name in the current
      attribute list, and the target column. Only its order matters. */
  type Score = (Dataset, nat, nat) -> int

  /** The names at positions other than `target` among the first `n` entries
      of `attributes`, in order. */
  function CandidatesUpTo(attributes: seq<string>, target: nat, n: nat): seq<string>
    requires n <= |attributes|
  {
    if n == 0 then []
    else CandidatesUpTo(attributes, target, n - 1) + (if n - 1 == target then [] else [attributes[n - 1]])
  }

  /** The names `choose_attribute` scores: every entry of `attributes` except
      the one at position `target`. */
  function Candidates(attributes: seq<string>, target: nat): seq<string>
  {
    CandidatesUpTo(attributes, target, |attributes|)
  }

  /** A candidate is a name held at some position other than `target`, and
      every such name is a candidate. */
  lemma {:induction false} CandidatesMembers(attributes: seq<string>, target: nat, n: nat, x: string)
    requires n <= |attributes|
    ensures x in CandidatesUpTo(attributes, target, n) <==>
            exists p | 0 <= p < n :: p != target && attributes[p] == x
  {
    if n > 0 {
      CandidatesMembers(attributes, target, n - 1, x);
    }
  }

  /** The last position below `n`, other than `target`, that holds `k`. */
  function LastPos(attributes: seq<string>, target: nat, k: string, n: nat): (p: nat)
    requires n <= |attributes| && k in CandidatesUpTo(attributes, target, n)
    ensures p < n && p != target && attributes[p] == k
    ensures forall q | p < q < n :: q == target || attributes[q] != k
  {
    if n - 1 != target && attributes[n - 1] == k then n - 1
    else LastPos(attributes, target, k, n - 1)
  }

  /** The dict `gains` after the loop has visited the first `n` positions:
      each candidate name is mapped to the score of the last position holding
      it, since assigning an existing dict key overwrites its value. */
  function Gains(data: Dataset, attributes: seq<string>, target: nat, score: Score, n: nat): (gains: map<string, int>)
    requires n <= |attributes|
    ensures gains == map[] <==> CandidatesUpTo(attributes, target, n) == []
  {
    var cands := CandidatesUpTo(attributes, target, n);
    var gains := map k | k in cands :: score(data, LastPos(attributes, target, k, n), target);
    assert cands != [] ==> cands[0] in gains;
    gains
  }

  /** A position that does not hold `k` leaves its last position unchanged. */
  lemma LastPosStep(attributes: seq<string>, target: nat, k: string, n: nat)
    requires n < |attributes| && k in CandidatesUpTo(attributes, target, n)
    requires n == target || attributes[n] != k
    ensures k in CandidatesUpTo(attributes, target, n + 1)
    ensures LastPos(attributes, target, k, n + 1) == LastPos(attributes, target, k, n)
  {
  }

  /** The scoring loop of `choose_attribute` skips the target position. */
  lemma GainSkip(data: Dataset, attributes: seq<string>, target: nat, score: Score)
    requires target < |attributes|
    ensures CandidatesUpTo(attributes, target, target + 1) == CandidatesUpTo(attributes, target, target)
    ensures Gains(data, attributes, target, score, target + 1) == Gains(data, attributes, target, score, target)
  {
    var g, h := Gains(data, attributes, target, score, target), Gains(data, attributes, target, score, target + 1);
    forall k | k in h
      ensures k in g && h[k] == g[k]
    {
      LastPosStep(attributes, target, k, target);
    }
  }

  /** Any other position makes its name a new key if it was not one ... */
  lemma KeyAssign(attributes: seq<string>, target: nat, attr: nat, keys: seq<string>)
    requires attr < |attributes| && attr != target
    requires keys == Distinct(CandidatesUpTo(attributes, target, attr))
    ensures (if attributes[attr] in keys then keys else keys + [attributes[attr]]) ==
            Distinct(CandidatesUpTo(attributes, target, attr + 1))
  {
    var name, c := attributes[attr], CandidatesUpTo(attributes, target, attr);
    assert CandidatesUpTo(attributes, target, attr + 1) == c + [name];
    DistinctSnoc(c, name);
  }

  /** ... and gives it the score of this position. */
  lemma GainAssign(data: Dataset, attributes: seq<string>, target: nat, score: Score, attr: nat,
                   gains: map<string, int>)
    requires attr < |attributes| && attr != target
    requires gains == Gains(data, attributes, target, score, attr)
    ensures gains[attributes[attr] := score(data, attr, target)] ==
            Gains(data, attributes, target, score, attr + 1)
  {
    var name, c := attributes[attr], CandidatesUpTo(attributes, target, attr);
    var c' := CandidatesUpTo(attributes, target, attr + 1);
    assert c' == c + [name];
    var h := Gains(data, attributes, target, score, attr + 1);
    var g' := gains[name := score(data, attr, target)];
    forall k | k in h
      ensures k in g' && h[k] == g'[k]
    {
      if k != name {
        assert k in c;
        LastPosStep(attributes, target, k, attr);
      }
    }
    forall k | k in g'
      ensures k in h
    {
      if k != name {
        assert k in c;
      }
    }
  }

  /** Once every position is scored, each key has a score and there is a key. */
  lemma GainDone(data: Dataset, attributes: seq<string>, target: nat, score: Score,
                 keys: seq<string>, gains: map<string, int>)
    requires Candidates(attributes, target) != []
    requires keys == Distinct(CandidatesUpTo(attributes, target, |attributes|))
    requires gains == Gains(data, attributes, target, score, |attributes|)
    ensures keys == Distinct(Candidates(attributes, target))
    ensures |keys| > 0
    ensures forall k | k in keys :: k in gains
    ensures forall x | x in Candidates(attributes, target) :: x in gains
  {
    assert Candidates(attributes, target)[0] in keys;
  }

  /** `keys` (the dict's keys in insertion order) and `gains` are what the
      scoring loop has built after visiting the first `n` positions. */
  ghost predicate ScoredUpTo(data: Dataset, attributes: seq<string>, target: nat, score: Score, n: nat,
                             keys: seq<string>, gains: map<string, int>)
  {
    n <= |attributes| &&
    keys == Distinct(CandidatesUpTo(attributes, target, n)) &&
    gains == Gains(data, attributes, target, score, n)
  }

  /** One turn of the scoring loop. */
  lemma ScoreStep(data: Dataset, attributes: seq<string>, target: nat, score: Score, attr: nat,
                  keys: seq<string>, gains: map<string, int>)
    requires attr < |attributes| && ScoredUpTo(data, attributes, target, score, attr, keys, gains)
    ensures attr == target ==> ScoredUpTo(data, attributes, target, score, attr + 1, keys, gains)
    ensures attr != target ==>
              var name := attributes[attr];
              ScoredUpTo(data, attributes, target, score, attr + 1,
                         if name in gains then keys else keys + [name],
                         gains[name := score(data, attr, target)])
  {
    if attr == target {
      GainSkip(data, attributes, target, score);
    } else {
      var name := attributes[attr];
      assert name in gains <==> name in keys;
      KeyAssign(attributes, target, attr, keys);
      GainAssign(data, attributes, target, score, attr, gains);
    }
  }

  /** The scoring loop of `choose_attribute`: `keys` lists the dict's keys
      in insertion order and `gains` is the dict itself. */
  method ScoreCandidates(data: Dataset, attributes: seq<string>, target: nat, score: Score)
    returns (keys: seq<string>, gains: map<string, int>)
    ensures keys == Distinct(CandidatesUpTo(attributes, target, |attributes|))
    ensures gains == Gains(data, attributes, target, score, |attributes|)
  {
    keys := [];
    gains := map[];
    for attr := 0 to |attributes|
      invariant ScoredUpTo(data, attributes, target, score, attr, keys, gains)
    {
      ScoreStep(data, attributes, target, score, attr, keys, gains);
      if attr != target {
        var name := attributes[attr];
        if name !in gains {
          keys := keys + [name];
        }
        gains := gains[name := score(data, attr, target)];
      }
    }
  }

  /** `choose_attribute(data, attributes, target_attr, max)`: the candidate
      name with the highest score, the first such in list order. The source
      needs at least one candidate, otherwise `max` of the empty dict raises. */
  method ChooseAttribute(data: Dataset, attributes: seq<string>, target: nat, score: Score)
    returns (best: string)
    requires Candidates(attributes, target) != []
    ensures IsFirstMax(Candidates(attributes, target), Gains(data, attributes, target, score, |attributes|), best)
  {
    var keys, gains := ScoreCandidates(data, attributes, target, score);
    GainDone(data, attributes, target, score, keys, gains);
    var b := FirstArgMax(keys, gains);
    best := keys[b];
    FirstArgMaxOverDistinct(Candidates(attributes, target), keys, gains, b);
  }

  /** With distinct attribute names, the name at the target position is never
      chosen. */
  lemma ChosenIsNotTarget(attributes: seq<string>, target: nat, best: string)
    requires target < |attributes|
    requires forall p, q | 0 <= p < q < |attributes| :: attributes[p] != attributes[q]
    requires best in Candidates(attributes, target)
    ensures best != attributes[target]
  {
    CandidatesMembers(attributes, target, |attributes|, best);
  }

  /** Without distinct names the target's name can be chosen: in the list
      `play a play` with target 0, the name `play` is also held at position
      2, where it is a candidate, and wins when that column scores higher. */
  lemma RepeatedTargetNameCanWin(data: Dataset, score: Score)
    requires score(data, 2, 0) > score(data, 1, 0)
    ensures var attributes := ["play", "a", "play"];
            IsFirstMax(Candidates(attributes, 0), Gains(data, attributes, 0, score, 3), attributes[0])
  {
    var attributes := ["play", "a", "play"];
    assert CandidatesUpTo(attributes, 0, 1) == [];
    assert CandidatesUpTo(attributes, 0, 2) == ["a"];
    var cands := Candidates(attributes, 0);
    assert cands == ["a", "play"];
    assert LastPos(attributes, 0, "a", 3) == 1;
    assert LastPos(attributes, 0, "play", 3) == 2;
    var gains := Gains(data, attributes, 0, score, 3);
    assert gains["a"] == score(data, 1, 0) && gains["play"] == score(data, 2, 0);
    assert FirstIndex(cands, "play") == 1;
  }

  /** The scored column is the name's position in the current list, not its
      column in the table. The two agree exactly when every name sits at its
      own column, as at the top call where the list is the header. */
  lemma ScoredColumnAtRoot(data: Dataset, attributes: seq<string>, target: nat, score: Score,
                           index: map<string, nat>, k: string)
    requires forall p | 0 <= p < |attributes| :: attributes[p] in index && index[attributes[p]] == p
    requires k in Candidates(attributes, target)
    ensures k in index
    ensures Gains(data, attributes, target, score, |attributes|)[k] == score(data, index[k], target)
  {
    var p := LastPos(attributes, target, k, |attributes|);
    assert attributes[p] == k;
  }

  /** Below the root the two disagree: with the header `play outlook temp`
      and `outlook` removed, the name `temp` sits at position 1 and is scored
      on column 1, which holds `outlook`, while its own column is 2. */
  lemma ScoredColumnBelowRoot(data: Dataset, score: Score)
    ensures var index := map["play" := 0, "outlook" := 1, "temp" := 2];
            Gains(data, ["play", "temp"], 0, score, 2)["temp"] == score(data, 1, 0) &&
            index["temp"] == 2
  {
    assert CandidatesUpTo(["play", "temp"], 0, 2) == ["temp"];
  }
}
