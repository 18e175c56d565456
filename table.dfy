/** Tables of categorical training examples.

    A record is one row of whitespace-separated string fields and a dataset is
    the sequence of rows read from the table (the header row excluded). Columns
    are addressed by their position in a row. This module also holds the two
    facts about Python collections that the inducer relies on: the order in
    which a dict filled by a scan lists its keys (`Distinct`), and the
    partition of a dataset by the values of one column (`Values`, `Examples`).
 */
module Table {

  type Record = seq<string>
  type Dataset = seq<Record>

  /** Every record of `data` has a field at position `col`. */
  predicate HasColumn(data: Dataset, col: nat)
  {
    forall r | r in data :: col < |r|
  }

  /** The list `[record[col] for record in data]`. */
  function Column(data: Dataset, col: nat): (vals: seq<string>)
    requires HasColumn(data, col)
    ensures |vals| == |data|
    ensures forall i | 0 <= i < |data| :: vals[i] == data[i][col]
  {
    seq(|data|, i requires 0 <= i < |data| => data[i][col])
  }

  /** Position of the first occurrence of `x` in `s` (Python's `list.index`). */
  function FirstIndex<T(==)>(s: seq<T>, x: T): (i: nat)
    requires x in s
    ensures i < |s| && s[i] == x
    ensures x !in s[..i]
  {
    if s[0] == x then 0 else 1 + FirstIndex(s[1..], x)
  }

  /** The first occurrence of an element of a prefix is found in the prefix. */
  lemma FirstIndexPrefix<T>(s: seq<T>, k: nat, x: T)
    requires k <= |s| && x in s[..k]
    ensures FirstIndex(s, x) == FirstIndex(s[..k], x)
  {
    var i, j := FirstIndex(s, x), FirstIndex(s[..k], x);
    assert s[..k][..j] == s[..j];
  }

  /** The distinct elements of `s`, each where it first occurs: the key order
      of a Python dict (which keeps insertion order) filled by scanning `s`
      from left to right. */
  function Distinct<T(==, !new)>(s: seq<T>): (u: seq<T>)
    ensures forall x :: x in u <==> x in s
    ensures forall p, q | 0 <= p < q < |u| :: u[p] != u[q]
  {
    if s == [] then []
    else
      var u := Distinct(s[..|s| - 1]);
      if s[|s| - 1] in u then u else u + [s[|s| - 1]]
  }

  /** The keys of `Distinct(s)` are listed in the order of their first
      occurrence in `s`. */
  lemma {:induction false} DistinctInOrder<T(!new)>(s: seq<T>, p: nat, q: nat)
    requires p < q < |Distinct(s)|
    ensures FirstIndex(s, Distinct(s)[p]) < FirstIndex(s, Distinct(s)[q])
  {
    var init, last := s[..|s| - 1], s[|s| - 1];
    var u := Distinct(init);
    var x, y := Distinct(s)[p], Distinct(s)[q];
    assert init == s[..|s| - 1];
    if last in u {
      DistinctInOrder(init, p, q);
      FirstIndexPrefix(s, |s| - 1, x);
      FirstIndexPrefix(s, |s| - 1, y);
    } else if q < |u| {
      DistinctInOrder(init, p, q);
      FirstIndexPrefix(s, |s| - 1, x);
      FirstIndexPrefix(s, |s| - 1, y);
    } else {
      assert y == last && last !in init;
      FirstIndexPrefix(s, |s| - 1, x);
      assert FirstIndex(s, y) == |s| - 1 by {
        assert s[..FirstIndex(s, y)] <= init;
      }
    }
  }

  /** `get_values`: the set `{record[col] for record in data}`. */
  function Values(data: Dataset, col: nat): (vals: set<string>)
    requires HasColumn(data, col)
    ensures forall v :: v in vals <==> v in Column(data, col)
    ensures |data| > 0 ==> vals != {}
  {
    var vals := set v | v in Column(data, col);
    assert |data| > 0 ==> Column(data, col)[0] in vals;
    vals
  }

  /** `a` is `b` with some elements removed and the rest kept in order. */
  ghost predicate IsSubsequence<T>(a: seq<T>, b: seq<T>)
    decreases |b|
  {
    if a == [] then true
    else if b == [] then false
    else (a[0] == b[0] && IsSubsequence(a[1..], b[1..])) || IsSubsequence(a, b[1..])
  }

  /** `get_examples`: the records whose field `col` equals `v`, in their
      original order. */
  function Examples(data: Dataset, col: nat, v: string): (sub: Dataset)
    requires HasColumn(data, col)
    ensures forall r | r in sub :: r in data && r[col] == v
    ensures forall r :: multiset(sub)[r] == if r in data && r[col] == v then multiset(data)[r] else 0
    ensures IsSubsequence(sub, data)
  {
    if data == [] then []
    else
      assert data == [data[0]] + data[1..];
      if data[0][col] == v then [data[0]] + Examples(data[1..], col, v)
      else Examples(data[1..], col, v)
  }

  /** A subset of a dataset keeps every column the dataset has. */
  lemma ExamplesHasColumn(data: Dataset, col: nat, v: string, other: nat)
    requires HasColumn(data, col) && HasColumn(data, other)
    ensures HasColumn(Examples(data, col, v), other)
  {
  }

  /** The records selected by a value take, in any column, only values the
      whole dataset takes there. */
  lemma ExamplesValues(data: Dataset, col: nat, v: string, other: nat)
    requires HasColumn(data, col) && HasColumn(data, other)
    ensures HasColumn(Examples(data, col, v), other)
    ensures Values(Examples(data, col, v), other) <= Values(data, other)
  {
    var sub := Examples(data, col, v);
    forall x | x in Values(sub, other)
      ensures x in Values(data, other)
    {
      var i :| 0 <= i < |sub| && Column(sub, other)[i] == x;
      var r := sub[i];
      assert r in sub && r[other] == x;
      assert r in data;
      var j :| 0 <= j < |data| && data[j] == r;
      assert Column(data, other)[j] == x;
    }
  }

  /** Every value that occurs in the column selects at least one record. */
  lemma ExamplesNonEmpty(data: Dataset, col: nat, v: string)
    requires HasColumn(data, col) && v in Values(data, col)
    ensures Examples(data, col, v) != []
  {
    var r :| r in data && r[col] == v;
    assert multiset(Examples(data, col, v))[r] > 0;
  }

  /** The partitions for the values `vs`, one after the other. */
  function Regroup(data: Dataset, col: nat, vs: seq<string>): Dataset
    requires HasColumn(data, col)
  {
    if vs == [] then [] else Examples(data, col, vs[0]) + Regroup(data, col, vs[1..])
  }

  /** With `vs` free of repetitions, a record lands in the regrouped dataset
      exactly as often as in `data` when its value is in `vs`, and not at all
      otherwise. */
  lemma {:induction false} RegroupCount(data: Dataset, col: nat, vs: seq<string>, r: Record)
    requires HasColumn(data, col)
    requires forall p, q | 0 <= p < q < |vs| :: vs[p] != vs[q]
    ensures multiset(Regroup(data, col, vs))[r] ==
            if r in data && r[col] in vs then multiset(data)[r] else 0
  {
    if vs != [] {
      RegroupCount(data, col, vs[1..], r);
      if r in data && r[col] == vs[0] {
        assert r[col] !in vs[1..];
      }
    }
  }

  /** Splitting a dataset by every distinct value of one column and putting
      the parts back together loses no record and duplicates none. */
  lemma PartitionIsLossless(data: Dataset, col: nat, vs: seq<string>)
    requires HasColumn(data, col)
    requires forall p, q | 0 <= p < q < |vs| :: vs[p] != vs[q]
    requires forall v :: v in vs <==> v in Values(data, col)
    ensures multiset(Regroup(data, col, vs)) == multiset(data)
  {
    forall r
      ensures multiset(Regroup(data, col, vs))[r] == multiset(data)[r]
    {
      RegroupCount(data, col, vs, r);
      if r in data {
        assert r[col] in Values(data, col);
      }
    }
  }
}
