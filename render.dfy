/** `print_tree`: the sideways ASCII drawing of a tree.

    The children of a node are sorted by subtree size and split into an "up"
    group, drawn above the node's own line, and a "down" group, drawn below
    it, so that the drawing is roughly balanced around the node. Each child
    is drawn with a longer indent and a tag (`last`) that picks the corner
    glyph of its own line and whether the vertical rule continues past it.
    The drawing is modelled as the sequence of lines it prints.
 */
module Render {
  import opened Tree

  // ---------------------------------------------------------------------
  // Sorting by a key

  /** `sum(key(x) for x in s)`. */
  function Weight<T>(s: seq<T>, key: T -> nat): (n: nat)
    ensures s != [] ==> key(s[0]) <= n
    ensures |s| == 1 ==> n == key(s[0])
  {
    if s == [] then 0 else key(s[0]) + Weight(s[1..], key)
  }

  lemma WeightSnoc<T>(s: seq<T>, n: nat, key: T -> nat)
    requires 0 < n <= |s|
    ensures Weight(s[..n], key) == Weight(s[..n - 1], key) + key(s[n - 1])
  {
    assert s[..n] == s[..n - 1] + [s[n - 1]];
    WeightAppend(s[..n - 1], [s[n - 1]], key);
    assert [s[n - 1]][1..] == [];
  }

  /** The weight of the first `n` elements, summed from the left. */
  function WeightUpTo<T>(s: seq<T>, n: nat, key: T -> nat): nat
    requires n <= |s|
  {
    if n == 0 then 0 else WeightUpTo(s, n - 1, key) + key(s[n - 1])
  }

  lemma {:induction false} WeightUpToPrefix<T>(s: seq<T>, n: nat, key: T -> nat)
    requires n <= |s|
    ensures WeightUpTo(s, n, key) == Weight(s[..n], key)
  {
    if n == 0 {
      assert s[..0] == [];
    } else {
      WeightUpToPrefix(s, n - 1, key);
      WeightSnoc(s, n, key);
    }
  }

  /** Summed from the left or from the right, the weight is the same. */
  lemma WeightUpToAll<T>(s: seq<T>, key: T -> nat)
    ensures WeightUpTo(s, |s|, key) == Weight(s, key)
  {
    WeightUpToPrefix(s, |s|, key);
    assert s[..|s|] == s;
  }

  lemma {:induction false} WeightAppend<T>(a: seq<T>, b: seq<T>, key: T -> nat)
    ensures Weight(a + b, key) == Weight(a, key) + Weight(b, key)
  {
    if a == [] {
      assert a + b == b;
    } else {
      assert (a + b)[1..] == a[1..] + b;
      WeightAppend(a[1..], b, key);
    }
  }

  /** Keys never decrease along `s`. */
  predicate Ascending<T>(s: seq<T>, key: T -> nat)
  {
    forall i, j | 0 <= i < j < |s| :: key(s[i]) <= key(s[j])
  }

  /** Keys never increase along `s`. */
  predicate Descending<T>(s: seq<T>, key: T -> nat)
  {
    forall i, j | 0 <= i < j < |s| :: key(s[i]) >= key(s[j])
  }

  /** `x` placed into `s` before the first element with a larger key. */
  function Insert<T(==)>(x: T, s: seq<T>, key: T -> nat): (r: seq<T>)
    ensures multiset(r) == multiset(s) + multiset{x}
    ensures Weight(r, key) == key(x) + Weight(s, key)
  {
    if s == [] then [x]
    else if key(x) < key(s[0]) then
      assert ([x] + s)[1..] == s;
      [x] + s
    else
      var r' := Insert(x, s[1..], key);
      assert s == [s[0]] + s[1..];
      assert ([s[0]] + r')[1..] == r';
      [s[0]] + r'
  }

  /** Every key of `s` is at least `b`. */
  predicate AtLeast<T>(b: nat, s: seq<T>, key: T -> nat)
  {
    forall i | 0 <= i < |s| :: b <= key(s[i])
  }

  lemma {:induction false} InsertAtLeast<T>(x: T, s: seq<T>, key: T -> nat, b: nat)
    requires AtLeast(b, s, key) && b <= key(x)
    ensures AtLeast(b, Insert(x, s, key), key)
  {
    if s != [] && key(x) >= key(s[0]) {
      InsertAtLeast(x, s[1..], key, b);
    }
  }

  /** Inserting into an ascending sequence keeps it ascending. */
  lemma {:induction false} InsertAscending<T>(x: T, s: seq<T>, key: T -> nat)
    requires Ascending(s, key)
    ensures Ascending(Insert(x, s, key), key)
  {
    if s != [] {
      if key(x) < key(s[0]) {
        assert AtLeast(key(x), s, key);
        ConsAscending(x, s, key);
      } else {
        InsertAscending(x, s[1..], key);
        assert AtLeast(key(s[0]), s[1..], key);
        InsertAtLeast(x, s[1..], key, key(s[0]));
        ConsAscending(s[0], Insert(x, s[1..], key), key);
      }
    }
  }

  lemma ConsAscending<T>(h: T, t: seq<T>, key: T -> nat)
    requires Ascending(t, key) && AtLeast(key(h), t, key)
    ensures Ascending([h] + t, key)
  {
    var r := [h] + t;
    forall i, j | 0 <= i < j < |r|
      ensures key(r[i]) <= key(r[j])
    {
      assert r[j] == t[j - 1];
      if i > 0 {
        assert r[i] == t[i - 1];
      }
    }
  }

  /** `sorted(s, key=key)`: a stable sort by key (insertion sort). */
  function SortByKey<T(==)>(s: seq<T>, key: T -> nat): (r: seq<T>)
    ensures multiset(r) == multiset(s)
    ensures Ascending(r, key)
    ensures Weight(r, key) == Weight(s, key)
  {
    if s == [] then []
    else
      var init, last := s[..|s| - 1], s[|s| - 1];
      assert s == init + [last];
      WeightAppend(init, [last], key);
      InsertAscending(last, SortByKey(init, key), key);
      Insert(last, SortByKey(init, key), key)
  }

  /** The elements of `s` whose key is `k`, in order. */
  function WithKey<T>(s: seq<T>, key: T -> nat, k: nat): seq<T>
  {
    if s == [] then [] else (if key(s[0]) == k then [s[0]] else []) + WithKey(s[1..], key, k)
  }

  lemma {:induction false} WithKeyAppend<T>(a: seq<T>, b: seq<T>, key: T -> nat, k: nat)
    ensures WithKey(a + b, key, k) == WithKey(a, key, k) + WithKey(b, key, k)
  {
    if a == [] {
      assert a + b == b;
    } else {
      var head := if key(a[0]) == k then [a[0]] else [];
      assert (a + b)[0] == a[0] && (a + b)[1..] == a[1..] + b;
      WithKeyAppend(a[1..], b, key, k);
      assert WithKey(a + b, key, k) == head + (WithKey(a[1..], key, k) + WithKey(b, key, k));
      ConcatAssoc(head, WithKey(a[1..], key, k), WithKey(b, key, k));
    }
  }

  lemma {:induction false} WithKeyNone<T>(s: seq<T>, key: T -> nat, k: nat)
    requires forall i | 0 <= i < |s| :: key(s[i]) > k
    ensures WithKey(s, key, k) == []
  {
    if s != [] {
      WithKeyNone(s[1..], key, k);
    }
  }

  /** Inserting `x` puts it after every element with the same key. */
  lemma {:induction false} InsertStable<T>(x: T, s: seq<T>, key: T -> nat, k: nat)
    requires Ascending(s, key)
    ensures WithKey(Insert(x, s, key), key, k) == WithKey(s, key, k) + (if key(x) == k then [x] else [])
  {
    if s == [] {
    } else if key(x) < key(s[0]) {
      assert ([x] + s)[1..] == s;
      if key(x) == k {
        WithKeyNone(s, key, k);
      }
    } else {
      var r' := Insert(x, s[1..], key);
      assert ([s[0]] + r')[1..] == r';
      InsertStable(x, s[1..], key, k);
    }
  }

  /** The sort is stable: elements with equal keys keep their relative
      order. */
  lemma {:induction false} SortStable<T>(s: seq<T>, key: T -> nat, k: nat)
    ensures WithKey(SortByKey(s, key), key, k) == WithKey(s, key, k)
  {
    if s != [] {
      var init, last := s[..|s| - 1], s[|s| - 1];
      assert s == init + [last];
      SortStable(init, key, k);
      InsertStable(last, SortByKey(init, key), key, k);
      WithKeyAppend(init, [last], key, k);
      assert WithKey([last], key, k) == if key(last) == k then [last] else [] by {
        assert [last][1..] == [];
      }
    }
  }

  // ---------------------------------------------------------------------
  // The up/down split

  /** `s` backwards. */
  function Reversed<T>(s: seq<T>): (r: seq<T>)
    ensures |r| == |s|
    ensures forall i | 0 <= i < |s| :: r[i] == s[|s| - 1 - i]
  {
    if s == [] then [] else Reversed(s[1..]) + [s[0]]
  }

  lemma {:induction false} ReversedMultiset<T>(s: seq<T>)
    ensures multiset(Reversed(s)) == multiset(s)
  {
    if s != [] {
      ReversedMultiset(s[1..]);
      assert s == [s[0]] + s[1..];
    }
  }

  lemma {:induction false} WeightReversed<T>(s: seq<T>, key: T -> nat)
    ensures Weight(Reversed(s), key) == Weight(s, key)
  {
    if s != [] {
      WeightReversed(s[1..], key);
      WeightAppend(Reversed(s[1..]), [s[0]], key);
      assert [s[0]][1..] == [];
    }
  }

  /** The popping loop, run on sorted `s`, stops with `up == s[..k]`: the
      largest `k` at which the weight of `s[k..]` (moved to `down`) reaches
      that of `s[..k]`, or `k == 0` when it never does. */
  ghost predicate StopsAt<T>(s: seq<T>, key: T -> nat, k: nat)
  {
    && k <= |s|
    && (k == 0 || Weight(s[k..], key) >= Weight(s[..k], key))
    && Passed(s, key, k)
  }

  /** Every cut above `k` is one the loop moves past: the tail beyond it
      weighs less than the head before it. */
  ghost predicate Passed<T>(s: seq<T>, key: T -> nat, k: nat)
  {
    forall j | k < j <= |s| :: PassesCut(s, key, j)
  }

  /** The loop moves past the cut at `j`: the tail weighs less than the head. */
  ghost predicate PassesCut<T>(s: seq<T>, key: T -> nat, j: nat)
    requires j <= |s|
  {
    Weight(s[j..], key) < Weight(s[..j], key)
  }

  /** There is one stopping point. */
  lemma StopsAtUnique<T>(s: seq<T>, key: T -> nat, k: nat, k': nat)
    requires StopsAt(s, key, k) && StopsAt(s, key, k')
    ensures k == k'
  {
    assert k < k' ==> PassesCut(s, key, k');
    assert k' < k ==> PassesCut(s, key, k);
  }

  /** `while up and sum(down) < sum(up): down.append(up.pop())`. */
  function Balance<T>(up: seq<T>, down: seq<T>, key: T -> nat): (r: (seq<T>, seq<T>))
    ensures |r.0| <= |up|
    decreases |up|
  {
    if up != [] && Weight(down, key) < Weight(up, key) then
      assert up == up[..|up| - 1] + [up[|up| - 1]];
      Balance(up[..|up| - 1], down + [up[|up| - 1]], key)
    else (up, down)
  }

  /** The loop only moves elements from `up` to `down`: together they hold
      the same elements as before. */
  lemma {:induction false} BalancePermutes<T>(up: seq<T>, down: seq<T>, key: T -> nat)
    ensures var r := Balance(up, down, key);
            multiset(r.0 + r.1) == multiset(up + down)
    decreases |up|
  {
    if up != [] && Weight(down, key) < Weight(up, key) {
      var init, last := up[..|up| - 1], up[|up| - 1];
      assert up == init + [last];
      BalancePermutes(init, down + [last], key);
      assert multiset(init + (down + [last])) == multiset(up + down);
    }
  }

  /** One turn of the loop from the cut at `k` moves the cut to `k - 1`. */
  lemma PopStep<T>(s: seq<T>, k: nat)
    requires 0 < k <= |s|
    ensures s[..k][..k - 1] == s[..k - 1]
    ensures Reversed(s[k..]) + [s[..k][k - 1]] == Reversed(s[k - 1..])
  {
    assert s[k - 1..][1..] == s[k..];
  }

  /** The loop's final `up` and `down`: `up` a prefix of sorted `s`, `down`
      the rest reversed, cut at the stopping point. */
  ghost predicate EndsAt<T>(s: seq<T>, key: T -> nat, r: (seq<T>, seq<T>))
  {
    |r.0| <= |s| && r.0 == s[..|r.0|] && r.1 == Reversed(s[|r.0|..]) && StopsAt(s, key, |r.0|)
  }

  /** Started from a cut the loop passes through, the loop ends at the
      stopping point. */
  lemma {:induction false} BalanceStops<T>(s: seq<T>, key: T -> nat, k: nat)
    requires k <= |s|
    requires Passed(s, key, k)
    ensures |Balance(s[..k], Reversed(s[k..]), key).0| <= k
    ensures EndsAt(s, key, Balance(s[..k], Reversed(s[k..]), key))
    decreases k
  {
    if k > 0 && Weight(Reversed(s[k..]), key) < Weight(s[..k], key) {
      PassStep(s, key, k);
      BalanceStops(s, key, k - 1);
      PopEnds(s, key, k);
    } else {
      StopsHere(s, key, k);
    }
  }

  /** A cut the loop moves past leaves the cut below it to be passed or
      stopped at. */
  lemma PassStep<T>(s: seq<T>, key: T -> nat, k: nat)
    requires 0 < k <= |s| && Passed(s, key, k)
    requires Weight(Reversed(s[k..]), key) < Weight(s[..k], key)
    ensures Passed(s, key, k - 1)
  {
    WeightReversed(s[k..], key);
  }

  /** One pop: the loop from the cut at `k` ends where the loop from `k - 1`
      does. */
  lemma PopEnds<T>(s: seq<T>, key: T -> nat, k: nat)
    requires 0 < k <= |s|
    requires Weight(Reversed(s[k..]), key) < Weight(s[..k], key)
    requires |Balance(s[..k - 1], Reversed(s[k - 1..]), key).0| <= k - 1
    requires EndsAt(s, key, Balance(s[..k - 1], Reversed(s[k - 1..]), key))
    ensures |Balance(s[..k], Reversed(s[k..]), key).0| <= k
    ensures EndsAt(s, key, Balance(s[..k], Reversed(s[k..]), key))
  {
    PopStep(s, k);
    assert Balance(s[..k], Reversed(s[k..]), key) == Balance(s[..k - 1], Reversed(s[k - 1..]), key);
  }

  /** A cut the loop does not move past is the stopping point. */
  lemma StopsHere<T>(s: seq<T>, key: T -> nat, k: nat)
    requires k <= |s| && Passed(s, key, k)
    requires k == 0 || Weight(Reversed(s[k..]), key) >= Weight(s[..k], key)
    ensures |Balance(s[..k], Reversed(s[k..]), key).0| <= k
    ensures EndsAt(s, key, Balance(s[..k], Reversed(s[k..]), key))
  {
    WeightReversed(s[k..], key);
    assert Balance(s[..k], Reversed(s[k..]), key) == (s[..k], Reversed(s[k..]));
    assert |s[..k]| == k;
  }

  /** The loop started with everything in `up` ends at the stopping point,
      with `up` and `down` together a permutation of the input. */
  lemma BalanceFromTop<T>(s: seq<T>, key: T -> nat)
    ensures var r := Balance(s, [], key);
            && |r.0| <= |s| && r.0 == s[..|r.0|] && r.1 == Reversed(s[|r.0|..])
            && StopsAt(s, key, |r.0|)
            && multiset(r.0 + r.1) == multiset(s)
  {
    assert s[..|s|] == s && s[|s|..] == [];
    BalanceStops(s, key, |s|);
    var r := Balance(s, [], key);
    assert s == r.0 + s[|r.0|..];
    ReversedMultiset(s[|r.0|..]);
  }

  /** The `up` and `down` lists of `print_tree`: the children sorted by
      subtree size, cut at the loop's stopping point, the tail reversed. */
  function Branches(children: seq<Node>): (r: (seq<Node>, seq<Node>))
    ensures multiset(r.0 + r.1) == multiset(children)
    ensures multiset(r.0) <= multiset(children) && multiset(r.1) <= multiset(children)
  {
    BalanceFromTop(SortByKey(children, Size), Size);
    Balance(SortByKey(children, Size), [], Size)
  }

  /** `up` is the sorted children up to the loop's stopping point and
      `down` the rest, reversed. */
  lemma BranchesCut(children: seq<Node>)
    ensures var s, r := SortByKey(children, Size), Branches(children);
            CutAt(s, r.0, r.1) && StopsAt(s, Size, |r.0|)
  {
    BalanceFromTop(SortByKey(children, Size), Size);
  }

  /** The weight of `s` under `Size` is `sum(nb_children(c) for c in s)`. */
  lemma {:induction false} WeightIsSumSizes(s: seq<Node>)
    ensures Weight(s, Size) == SumSizes(s)
  {
    if s != [] {
      WeightIsSumSizes(s[1..]);
    }
  }

  /** A reversed ascending sequence is descending. */
  lemma ReversedDescending<T>(t: seq<T>, key: T -> nat)
    requires Ascending(t, key)
    ensures Descending(Reversed(t), key)
  {
    var r := Reversed(t);
    forall i, j | 0 <= i < j < |r|
      ensures key(r[i]) >= key(r[j])
    {
      assert r[i] == t[|t| - 1 - i] && r[j] == t[|t| - 1 - j];
    }
  }

  /** The two sides of a cut of an ascending sequence, the second reversed:
      ascending, descending, and together a permutation of the whole. */
  lemma CutOrder<T>(s: seq<T>, key: T -> nat, k: nat)
    requires Ascending(s, key) && k <= |s|
    ensures Ascending(s[..k], key) && Descending(Reversed(s[k..]), key)
    ensures multiset(s[..k] + Reversed(s[k..])) == multiset(s)
  {
    assert Ascending(s[k..], key);
    ReversedDescending(s[k..], key);
    assert s == s[..k] + s[k..];
    ReversedMultiset(s[k..]);
  }

  /** What the cut at the stopping point gives, for any key. */
  lemma {:induction false} CutProperties<T>(s: seq<T>, key: T -> nat, k: nat)
    requires Ascending(s, key) && StopsAt(s, key, k)
    ensures multiset(s[..k] + Reversed(s[k..])) == multiset(s)
    ensures s != [] && key(s[0]) > 0 ==> Reversed(s[k..]) != []
    ensures k == 0 || Weight(Reversed(s[k..]), key) >= Weight(s[..k], key)
    ensures Ascending(s[..k], key) && Descending(Reversed(s[k..]), key)
    ensures Weight(s[..k], key) + Weight(Reversed(s[k..]), key) == Weight(s, key)
  {
    CutOrder(s, key, k);
    CutWeights(s, key, k);
    CutNotAtEnd(s, key, k);
  }

  /** The two sides of a cut share out the weight of the whole, and at the
      stopping point the reversed tail weighs at least as much as the head. */
  lemma CutWeights<T>(s: seq<T>, key: T -> nat, k: nat)
    requires StopsAt(s, key, k)
    ensures k == 0 || Weight(Reversed(s[k..]), key) >= Weight(s[..k], key)
    ensures Weight(s[..k], key) + Weight(Reversed(s[k..]), key) == Weight(s, key)
  {
    var head, tail := s[..k], s[k..];
    WeightReversed(tail, key);
    assert s == head + tail;
    WeightAppend(head, tail, key);
  }

  /** With a first element of positive weight the loop pops at least once. */
  lemma CutNotAtEnd<T>(s: seq<T>, key: T -> nat, k: nat)
    requires StopsAt(s, key, k)
    ensures s != [] && key(s[0]) > 0 ==> k < |s|
  {
    if s != [] && key(s[0]) > 0 {
      assert s[..|s|] == s && s[|s|..] == [];
      assert Weight(s, key) > 0;
    }
  }

  /** The four promises of the split: a permutation of the children, a
      non-empty `down` when there are children, `down` at least as heavy
      as a non-empty `up`, `up` ascending and `down` descending in size;
      and the weights of the two groups add up to that of the children. */
  lemma BranchesProperties(children: seq<Node>)
    ensures var (up, down) := Branches(children);
            && multiset(up + down) == multiset(children)
            && (children != [] ==> down != [])
            && (up == [] || Weight(down, Size) >= Weight(up, Size))
            && Ascending(up, Size) && Descending(down, Size)
            && Weight(up, Size) + Weight(down, Size) == Weight(children, Size)
  {
    var s := SortByKey(children, Size);
    BranchesCut(children);
    CutProperties(s, Size, |Branches(children).0|);
  }

  /** `up` and `down` are the sorted `s` cut at `|up|`, the tail reversed:
      the state of the popping loop. */
  ghost predicate CutAt<T>(s: seq<T>, up: seq<T>, down: seq<T>)
  {
    |up| <= |s| && up == s[..|up|] && down == Reversed(s[|up|..])
  }

  /** One turn of the popping loop keeps the loop's state a cut and the
      record of the cuts passed. */
  lemma PopKeeps<T>(s: seq<T>, key: T -> nat, up: seq<T>, down: seq<T>)
    requires CutAt(s, up, down) && Passed(s, key, |up|)
    requires up != [] && Weight(down, key) < Weight(up, key)
    ensures CutAt(s, up[..|up| - 1], down + [up[|up| - 1]])
    ensures Passed(s, key, |up| - 1)
  {
    var k := |up|;
    WeightReversed(s[k..], key);
    PopStep(s, k);
  }

  /** Where the loop exits, it has produced what `Balance` does. */
  lemma ExitIsBalance<T>(s: seq<T>, key: T -> nat, up: seq<T>, down: seq<T>)
    requires CutAt(s, up, down) && Passed(s, key, |up|)
    requires !(up != [] && Weight(down, key) < Weight(up, key))
    ensures (up, down) == Balance(s, [], key)
  {
    var k := |up|;
    WeightReversed(s[k..], key);
    assert StopsAt(s, key, k);
    BalanceFromTop(s, key);
    StopsAtUnique(s, key, k, |Balance(s, [], key).0|);
  }

  /** `print_tree`'s sort and split loop, with `key` for `nb_children`:
      it ends at the stopping point of the sorted children. */
  method SplitBranches<T(==)>(children: seq<T>, key: T -> nat) returns (up: seq<T>, down: seq<T>)
    ensures (up, down) == Balance(SortByKey(children, key), [], key)
  {
    var s := SortByKey(children, key);
    up, down := s, [];
    assert s[..|s|] == s && s[|s|..] == [];
    while up != [] && Weight(down, key) < Weight(up, key)
      invariant CutAt(s, up, down) && Passed(s, key, |up|)
      decreases |up|
    {
      PopKeeps(s, key, up, down);
      down := down + [up[|up| - 1]];
      up := up[..|up| - 1];
    }
    ExitIsBalance(s, key, up, down);
  }

  // ---------------------------------------------------------------------
  // Drawing

  /** `w in s` on strings: `w` occurs in `s` as a substring. */
  predicate Contains(s: string, w: string)
    ensures w <= s ==> Contains(s, w)
    ensures Contains(s, w) ==> |w| <= |s|
    decreases |s|
  {
    w <= s || (s != [] && Contains(s[1..], w))
  }

  /** `" " * n`. */
  function Spaces(n: nat): (r: string)
    ensures |r| == n && forall i | 0 <= i < n :: r[i] == ' '
  {
    seq(n, _ => ' ')
  }

  /** The corner glyph of a node's own line. */
  function StartShape(last: string): (c: char)
    ensures c == '┌' <==> last == "up"
    ensures c == '└' <==> last == "down"
    ensures c == ' ' <==> last == "updown"
  {
    if last == "up" then '┌'
    else if last == "down" then '└'
    else if last == "updown" then ' '
    else '├'
  }

  /** The glyph after a node's name, joining it to its groups. */
  function EndShape(up: seq<Node>, down: seq<Node>): (e: string)
    ensures |e| <= 1
    ensures e == "" <==> up == [] && down == []
  {
    if up != [] then "┤" else if down != [] then "┐" else ""
  }

  /** The indent of the children on `side` ("up" or "down"): the vertical
      rule continues unless the node itself sits at that end of its
      parent's drawing. */
  function ChildIndent(indent: string, last: string, side: string, name: string): (r: string)
    ensures indent <= r && |r| == |indent| + 1 + |name|
  {
    indent + [if Contains(last, side) then ' ' else '│'] + Spaces(|name|)
  }

  /** The tag handed to the child at position `i` of a group of `n`: the
      first of the up group is "up", the last of the down group "down". */
  function Tag(i: nat, n: nat, isUp: bool): (t: string)
    ensures t == "up" <==> isUp && i == 0
    ensures t == "down" <==> !isUp && i + 1 == n
  {
    if isUp then (if i == 0 then "up" else "") else (if i + 1 == n then "down" else "")
  }

  /** An element of a group is a child of the node. */
  lemma ChildOf(node: Node, kids: seq<Node>, i: nat)
    requires i < |kids| && multiset(kids) <= multiset(node.children)
    ensures kids[i] in node.children
  {
    assert kids[i] in multiset(kids);
  }

  /** The lines printed by `print_tree(node, indent, last)`. */
  function Render(node: Node, indent: string, last: string): (lines: seq<string>)
    ensures |lines| >= 1
    decreases node, 1
  {
    var (up, down) := Branches(node.children);
    Group(node, up, |up|, ChildIndent(indent, last, "up", node.name), true)
    + [indent + [StartShape(last)] + node.name + EndShape(up, down)]
    + Group(node, down, |down|, ChildIndent(indent, last, "down", node.name), false)
  }

  /** The lines of the first `n` children `kids[..n]` of `node` in one
      group, in order. */
  function Group(node: Node, kids: seq<Node>, n: nat, indent: string, isUp: bool): (lines: seq<string>)
    requires n <= |kids|
    requires multiset(kids) <= multiset(node.children)
    ensures |lines| >= n
    decreases node, 0, n
  {
    if n == 0 then []
    else
      ChildOf(node, kids, n - 1);
      Group(node, kids, n - 1, indent, isUp) + Render(kids[n - 1], indent, Tag(n - 1, |kids|, isUp))
  }

  /** One more child of a group adds that child's lines at the end. */
  lemma GroupSnoc(node: Node, kids: seq<Node>, n: nat, indent: string, isUp: bool)
    requires 0 < n <= |kids| && multiset(kids) <= multiset(node.children)
    ensures Group(node, kids, n, indent, isUp)
         == Group(node, kids, n - 1, indent, isUp) + Render(kids[n - 1], indent, Tag(n - 1, |kids|, isUp))
  {
    ChildOf(node, kids, n - 1);
  }

  /** `print_tree` prints one line per node of the subtree. */
  lemma {:induction false} RenderLength(node: Node, indent: string, last: string)
    ensures |Render(node, indent, last)| == Size(node)
    decreases node, 1
  {
    var (up, down) := Branches(node.children);
    var upIndent := ChildIndent(indent, last, "up", node.name);
    var downIndent := ChildIndent(indent, last, "down", node.name);
    var line := indent + [StartShape(last)] + node.name + EndShape(up, down);
    assert Render(node, indent, last)
        == Group(node, up, |up|, upIndent, true) + [line] + Group(node, down, |down|, downIndent, false);
    BranchesProperties(node.children);
    GroupLength(node, up, |up|, upIndent, true);
    GroupLength(node, down, |down|, downIndent, false);
    WeightUpToAll(up, Size);
    WeightUpToAll(down, Size);
    WeightIsSumSizes(node.children);
  }

  lemma {:induction false} GroupLength(node: Node, kids: seq<Node>, n: nat, indent: string, isUp: bool)
    requires n <= |kids|
    requires multiset(kids) <= multiset(node.children)
    ensures |Group(node, kids, n, indent, isUp)| == WeightUpTo(kids, n, Size)
    decreases node, 0, n
  {
    if n > 0 {
      ChildOf(node, kids, n - 1);
      GroupSnoc(node, kids, n, indent, isUp);
      RenderLength(kids[n - 1], indent, Tag(n - 1, |kids|, isUp));
      GroupLength(node, kids, n - 1, indent, isUp);
    }
  }

  /** Every line of `lines` starts with `prefix`. */
  predicate AllStartWith(lines: seq<string>, prefix: string)
  {
    lines == [] || (prefix <= lines[0] && AllStartWith(lines[1..], prefix))
  }

  /** `AllStartWith` says of every line that it starts with `prefix`. */
  lemma {:induction false} AllStartWithEach(lines: seq<string>, prefix: string)
    ensures AllStartWith(lines, prefix) <==> forall i | 0 <= i < |lines| :: prefix <= lines[i]
  {
    if lines != [] {
      AllStartWithEach(lines[1..], prefix);
      assert forall i | 0 < i < |lines| :: lines[i] == lines[1..][i - 1];
    }
  }

  lemma {:induction false} StartWithConcat(a: seq<string>, b: seq<string>, prefix: string)
    requires AllStartWith(a, prefix) && AllStartWith(b, prefix)
    ensures AllStartWith(a + b, prefix)
  {
    if a == [] {
      assert a + b == b;
    } else {
      StartWithConcat(a[1..], b, prefix);
      assert (a + b)[0] == a[0] && (a + b)[1..] == a[1..] + b;
    }
  }

  lemma {:induction false} PrefixTrans(a: string, b: string, lines: seq<string>)
    requires a <= b && AllStartWith(lines, b)
    ensures AllStartWith(lines, a)
  {
    if lines != [] {
      PrefixTrans(a, b, lines[1..]);
      assert lines[0][..|a|] == b[..|a|];
    }
  }

  lemma LinePrefix(indent: string, start: char, name: string, end: string)
    ensures AllStartWith([indent + [start] + name + end], indent)
  {
    var line := indent + [start] + name + end;
    assert line[..|indent|] == indent;
  }

  /** Every line printed by `print_tree` starts with the incoming indent. */
  lemma {:induction false} RenderIndent(node: Node, indent: string, last: string)
    ensures AllStartWith(Render(node, indent, last), indent)
    decreases node, 1
  {
    var (up, down) := Branches(node.children);
    var upIndent := ChildIndent(indent, last, "up", node.name);
    var downIndent := ChildIndent(indent, last, "down", node.name);
    var above := Group(node, up, |up|, upIndent, true);
    var below := Group(node, down, |down|, downIndent, false);
    var line := indent + [StartShape(last)] + node.name + EndShape(up, down);
    assert Render(node, indent, last) == above + [line] + below;
    GroupIndent(node, up, |up|, upIndent, true);
    GroupIndent(node, down, |down|, downIndent, false);
    PrefixTrans(indent, upIndent, above);
    PrefixTrans(indent, downIndent, below);
    LinePrefix(indent, StartShape(last), node.name, EndShape(up, down));
    StartWithConcat(above, [line], indent);
    StartWithConcat(above + [line], below, indent);
  }

  lemma {:induction false} GroupIndent(node: Node, kids: seq<Node>, n: nat, indent: string, isUp: bool)
    requires n <= |kids|
    requires multiset(kids) <= multiset(node.children)
    ensures AllStartWith(Group(node, kids, n, indent, isUp), indent)
    decreases node, 0, n
  {
    if n > 0 {
      ChildOf(node, kids, n - 1);
      GroupSnoc(node, kids, n, indent, isUp);
      RenderIndent(kids[n - 1], indent, Tag(n - 1, |kids|, isUp));
      GroupIndent(node, kids, n - 1, indent, isUp);
      StartWithConcat(Group(node, kids, n - 1, indent, isUp), Render(kids[n - 1], indent, Tag(n - 1, |kids|, isUp)), indent);
    }
  }

  /** The node's own line comes after the lines of the up group and is the
      indent, the corner glyph for `last`, the name and the joining glyph. */
  lemma RenderOwnLine(node: Node, indent: string, last: string)
    ensures var (up, down) := Branches(node.children);
            var lines := Render(node, indent, last);
            && Weight(up, Size) < |lines|
            && lines[Weight(up, Size)] == indent + [StartShape(last)] + node.name + EndShape(up, down)
  {
    var (up, down) := Branches(node.children);
    GroupLength(node, up, |up|, ChildIndent(indent, last, "up", node.name), true);
    WeightUpToAll(up, Size);
  }

  /** A node's line ends bare exactly when it is a leaf; otherwise, since
      the down group is never empty, it ends with `┐` exactly when the up
      group is empty, and with `┤` when both groups are drawn. */
  lemma OwnLineEnd(node: Node)
    ensures var (up, down) := Branches(node.children);
            && (EndShape(up, down) == "" <==> node.children == [])
            && (EndShape(up, down) == "┐" <==> node.children != [] && up == [])
            && (EndShape(up, down) == "┤" <==> up != [])
  {
    var (up, down) := Branches(node.children);
    BranchesProperties(node.children);
    if node.children == [] {
      assert multiset(up + down) == multiset{};
      assert up + down == [];
    }
  }

  lemma ConcatAssoc<T>(a: seq<T>, b: seq<T>, c: seq<T>)
    ensures a + (b + c) == (a + b) + c
  {
  }

  /** `print_tree(node, indent, last)`, its printed lines collected in order. */
  method PrintTree(node: Node, indent: string, last: string) returns (lines: seq<string>)
    ensures lines == Render(node, indent, last)
    decreases node, 1
  {
    var up, down := SplitBranches(node.children, Size);
    assert (up, down) == Branches(node.children);
    var above := PrintGroup(node, up, ChildIndent(indent, last, "up", node.name), true);
    var below := PrintGroup(node, down, ChildIndent(indent, last, "down", node.name), false);
    lines := above + [indent + [StartShape(last)] + node.name + EndShape(up, down)] + below;
  }

  /** The loop `for child in up` (or `down`) of `print_tree`. */
  method PrintGroup(node: Node, kids: seq<Node>, indent: string, isUp: bool) returns (lines: seq<string>)
    requires multiset(kids) <= multiset(node.children)
    ensures lines == Group(node, kids, |kids|, indent, isUp)
    decreases node, 0
  {
    lines := [];
    for i := 0 to |kids|
      invariant lines == Group(node, kids, i, indent, isUp)
    {
      ChildOf(node, kids, i);
      var sub := PrintTree(kids[i], indent, Tag(i, |kids|, isUp));
      lines := lines + sub;
    }
  }

  /** A leaf prints its own line and nothing else. */
  lemma LeafLine(n: Node, indent: string, last: string)
    requires n.children == []
    ensures Render(n, indent, last) == [indent + [StartShape(last)] + n.name]
  {
    assert SortByKey(n.children, Size) == [];
    assert Branches(n.children) == ([], []);
    var line := indent + [StartShape(last)] + n.name;
    assert line + EndShape([], []) == line;
    assert Group(n, [], 0, ChildIndent(indent, last, "up", n.name), true) == [];
    assert Group(n, [], 0, ChildIndent(indent, last, "down", n.name), false) == [];
  }

  /** Two elements with the same key stay in their order. */
  lemma SortTwoTied<T>(x: T, y: T, key: T -> nat)
    requires key(x) == key(y)
    ensures SortByKey([x, y], key) == [x, y]
  {
    assert [x][..0] == [];
    assert SortByKey([x], key) == [x];
    assert [x, y][..1] == [x];
    assert [x][1..] == [];
  }

  /** Two tied, non-zero weights are split one up and one down. */
  lemma BalanceTwoTied<T>(x: T, y: T, key: T -> nat)
    requires key(x) == key(y) > 0
    ensures Balance([x, y], [], key) == ([x], [y])
  {
    var none: seq<T> := [];
    assert [x][1..] == [] && [y][1..] == [] && [x, y][1..] == [y];
    assert Weight([x], key) == key(x) && Weight([y], key) == key(y);
    assert Weight([x, y], key) > Weight(none, key);
    assert [x, y][..1] == [x] && none + [y] == [y];
    assert Balance([x, y], none, key) == Balance([x], [y], key);
    assert Balance([x], [y], key) == ([x], [y]);
  }

  /** Two leaves of equal size: the sort keeps their order and the balancing
      loop moves the second one down. */
  lemma TwoLeavesBranches(b: Node, c: Node)
    requires b.children == [] && c.children == []
    ensures Branches([b, c]) == ([b], [c])
  {
    assert Size(b) == 1 && Size(c) == 1;
    SortTwoTied(b, c, Size);
    BalanceTwoTied(b, c, Size);
  }

  /** A group of one child is that child's lines. */
  lemma GroupOfOne(node: Node, k: Node, indent: string, isUp: bool)
    requires multiset([k]) <= multiset(node.children)
    ensures Group(node, [k], 1, indent, isUp) == Render(k, indent, Tag(0, 1, isUp))
  {
    assert Group(node, [k], 0, indent, isUp) == [];
  }

  /** The root's tag "updown" contains both "up" and "down", so neither
      side of the root draws a vertical rule. */
  lemma RootIndents(name: string)
    ensures ChildIndent("", "updown", "up", name) == [' '] + Spaces(|name|)
    ensures ChildIndent("", "updown", "down", name) == [' '] + Spaces(|name|)
  {
    assert Contains("updown", "up") by {
      assert "up" <= "updown";
    }
    assert Contains("updown", "down") by {
      assert "updown"[1..][1..] == "down";
      assert "down" <= "updown"[1..][1..];
    }
  }

  /** One level of `Render`, for a node whose partition is known. */
  lemma RenderStep(node: Node, indent: string, last: string, up: seq<Node>, down: seq<Node>)
    requires Branches(node.children) == (up, down)
    ensures multiset(up) <= multiset(node.children) && multiset(down) <= multiset(node.children)
    ensures Render(node, indent, last)
         == Group(node, up, |up|, ChildIndent(indent, last, "up", node.name), true)
          + [indent + [StartShape(last)] + node.name + EndShape(up, down)]
          + Group(node, down, |down|, ChildIndent(indent, last, "down", node.name), false)
  {
  }

  /** The three lines of `TwoLeaves`, character by character. */
  lemma TwoLeavesText()
    ensures var indent := [' '] + Spaces(1);
            [indent + ['┌'] + "b"] + ["" + [' '] + "r" + "┤"] + [indent + ['└'] + "c"] == ["  ┌b", " r┤", "  └c"]
  {
    var indent := [' '] + Spaces(1);
    assert indent + ['┌'] + "b" == "  ┌b";
    assert "" + [' '] + "r" + "┤" == " r┤";
    assert indent + ['└'] + "c" == "  └c";
  }

  /** A root with two leaves: the balancing puts one leaf above the root's
      line and one below it.

        ┌b
       r┤
        └c
   */
  lemma TwoLeaves()
    ensures Render(Node("r", [Node("b", []), Node("c", [])]), "", "updown") == ["  ┌b", " r┤", "  └c"]
  {
    var b, c := Node("b", []), Node("c", []);
    var root := Node("r", [b, c]);
    TwoLeavesBranches(b, c);
    RenderStep(root, "", "updown", [b], [c]);
    RootIndents("r");
    var indent := [' '] + Spaces(1);
    assert Tag(0, 1, true) == "up" && Tag(0, 1, false) == "down";
    LeafLine(b, indent, "up");
    LeafLine(c, indent, "down");
    GroupOfOne(root, b, indent, true);
    GroupOfOne(root, c, indent, false);
    TwoLeavesText();
    assert StartShape("up") == '┌' && StartShape("down") == '└' && StartShape("updown") == ' ';
    assert Render(root, "", "updown") == [indent + ['┌'] + "b"] + ["" + [' '] + "r" + "┤"] + [indent + ['└'] + "c"];
  }
}
